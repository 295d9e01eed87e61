/**
 * The user-level heap: malloc, free and morecore, on a memory of headers.  Addresses
 * count units of sizeof(Header) bytes; the pointer handed to the caller is the one
 * after the header.  The process's size, which sbrk changes, is part of the state.
 */
module Heap {
  import opened Basics
  import opened FreeList
  import opened Tiling

  /** sizeof(Header), and the least number of units asked of sbrk. */
  const HEADER: nat := 8
  const NALLOC: nat := 4096
  /** KERNBASE, in units: a process is smaller. */
  const TOP: nat := 0x1000_0000
  /** The largest request that malloc serves: 2^31 - 16. */
  const MAXREQUEST: nat := 0x7FFF_FFF0

  /** malloc's rounding, in 32-bit arithmetic. */
  function Units(nbytes: nat): (n: nat)
    ensures n >= 1
  {
    (nbytes + HEADER - 1) % UINT / HEADER + 1
  }

  /** The units morecore asks for. */
  function Request(nunits: nat): (n: nat)
    ensures n >= nunits && n >= NALLOC && (n == nunits || n == NALLOC)
  {
    if nunits < NALLOC then NALLOC else nunits
  }

  /** nu * sizeof(Header), computed in 32 bits, as the int that sbrk takes. */
  function SbrkArg(nu: nat): int {
    var bytes := nu * HEADER % UINT;
    if bytes < 0x8000_0000 then bytes else bytes - UINT
  }

  /** Does malloc's arithmetic serve a request: enough units, and sbrk asked for as many? */
  ghost predicate Served(nbytes: nat) {
    Units(nbytes) * HEADER >= nbytes + HEADER && SbrkArg(Request(Units(nbytes))) == Request(Units(nbytes)) * HEADER
  }

  /**
   * Exactly the requests up to MAXREQUEST are served.  Above it the byte count is no longer an
   * int, so that sbrk takes it for a shrink; in the last few the rounding itself wraps.
   */
  lemma ServedIff(nbytes: nat)
    requires nbytes < UINT
    ensures Served(nbytes) <==> nbytes <= MAXREQUEST
    ensures MAXREQUEST < nbytes <= UINT - HEADER ==> Units(nbytes) >= TOP && SbrkArg(Request(Units(nbytes))) <= 0
    ensures nbytes > UINT - HEADER ==> Units(nbytes) == 1
    ensures nbytes <= MAXREQUEST ==> (Units(nbytes) - 1) * HEADER < nbytes + HEADER
  {
  }

  /** Does sbrk report failure to a heap that needs n units of a process of brk? */
  predicate SbrkFails(n: nat, brk: nat, refuse: bool) {
    if SbrkArg(Request(n)) > 0 then refuse || brk + Request(n) >= TOP else SbrkArg(Request(n)) == -(brk * HEADER)
  }

  class Heap {
    const base: nat
    /** Where the heap begins: the process's size, in units, when it started. */
    const start: nat
    var freep: Option<nat>
    var ptr: Words
    var size: Words
    /** The process's size now. */
    var brk: nat
    // specification: the free list from base, the live blocks, the block of each unit, and the
    // end of what the process has
    ghost var L: seq<nat>
    ghost var live: Words
    ghost var block: Words
    ghost var end: nat

    ghost predicate Valid()
      reads this
    {
      && Cyclic(ptr, size, L, base) && Tiled(size, L, live, block)
      && freep.Some? && freep.value in L
    }

    /** The heap before the first malloc. */
    ghost predicate Unused()
      reads this
    {
      freep == None && live == map[] && block == map[]
    }

    /** The heap's units are exactly the ones obtained from sbrk. */
    ghost predicate Backed()
      reads this
    {
      base < start <= brk == end < TOP && Spans(block, start, brk)
    }

    ghost predicate Sound()
      reads this
    {
      (Valid() || Unused()) && Backed()
    }

    constructor (base: nat, start: nat)
      requires base < start < TOP
      ensures this.base == base && this.start == start && Unused() && Sound() && brk == start
    {
      this.base, this.start, brk, end := base, start, start, start;
      freep, ptr, size := None, map[], map[];
      L, live, block := [], map[], map[];
    }

    /** free's search: the free block after which b belongs. */
    method Search(b: nat) returns (p: nat, ghost k: nat)
      requires Valid() && b in live
      ensures After(L, k, b) && p == L[k]
    {
      k := Predecessor(ptr, size, L, base, live, block, b);
      p := freep.value;
      NotListed(ptr, size, L, base, k, b);
      Headers(ptr, size, L, base);
      ghost var i: nat :| i < |L| && L[i] == p;
      assert Link(ptr, L, i) && Room(size, L, i);
      while !(b > p && b < ptr[p])
        invariant i < |L| && L[i] == p && Link(ptr, L, i) && Room(size, L, i)
        decreases if i <= k then k - i else |L| + k - i
      {
        if p >= ptr[p] && (b > p || b < ptr[p]) { break; }
        p := ptr[p];
        i := if i + 1 < |L| then i + 1 else 0;
        assert Link(ptr, L, i) && Room(size, L, i);
      }
      assert i == k;
    }

    /** free: link live block b into the list in address order, merging it with what it touches. */
    method Free(b: nat)
      requires Valid() && b in live
      modifies this`ptr, this`size, this`freep, this`L, this`live, this`block
      ensures Valid() && live == old(live) - {b} && block.Keys == old(block).Keys
      ensures b in old(size) && exists i: nat :: i < |L| && Contains(size, L, i, b, old(size)[b])
      ensures freep.value < b
    {
      ghost var k;
      var p;
      p, k := Search(b);
      assert Headed(size, L, live, block, b);
      ghost var n := size[b];
      MergeUp(p, k, b);
      ghost var m := size[b];
      MergeDown(p, k, b);
      freep := Some(p);
      ghost var i: nat :| i < |L| && Contains(size, L, i, b, m);
      assert Contains(size, L, i, b, n);
    }

    /** b is ready to go after p: what b points to is what follows it, and it does not touch that. */
    ghost predicate Half(p: nat, k: nat, b: nat)
      reads this
    {
      && After(L, k, b) && p == L[k] && b in live && b in ptr && b in size
      && Cyclic(ptr[p := ptr[b]], size, L, base) && Tiled(size, L, live, block)
      && (k + 1 < |L| ==> b + size[b] < L[k + 1])
    }

    method MergeUp(p: nat, ghost k: nat, b: nat)
      requires Valid() && b in live && After(L, k, b) && p == L[k]
      modifies this`ptr, this`size, this`L, this`live, this`block
      ensures Half(p, k, b) && block.Keys == old(block).Keys && live.Keys == old(live).Keys
      ensures forall x :: x in live && x != b ==> live[x] == old(live)[x]
      ensures b in old(size) && old(size)[b] <= size[b]
    {
      MergeFacts(ptr, size, L, base, live, block, k, b);
      if b + size[b] == ptr[p] {
        var q := ptr[p];
        ghost var size' := size[b := size[b] + size[q]];
        ghost var live' := live[b := size'[b]];
        UpFacts(ptr, size, L, base, live, block, k, b);
        block := Retag(block, q, q + size[q], b);
        size, ptr := size[b := size[b] + size[q]], ptr[b := ptr[q]];
        L, live := Remove(L, k + 1), live';
      } else {
        ptr := ptr[b := ptr[p]];
        Unlisted(old(ptr), size, L, base, ptr[p := ptr[b]], size);
      }
    }

    method MergeDown(p: nat, ghost k: nat, b: nat)
      requires Half(p, k, b)
      modifies this`ptr, this`size, this`L, this`live, this`block
      ensures Cyclic(ptr, size, L, base) && Tiled(size, L, live, block) && p in L
      ensures live == old(live) - {b} && block.Keys == old(block).Keys
      ensures exists i: nat :: i < |L| && Contains(size, L, i, b, old(size)[b])
    {
      ghost var ptr1 := ptr[p := ptr[b]];
      MergeFacts(ptr1, size, L, base, live, block, k, b);
      NotListed(ptr1, size, L, base, k, b);
      if p + size[p] == b {
        ghost var size' := size[p := size[p] + size[b]];
        MergeDownOk(ptr1, size, L, base, k, size[b], size');
        Ordered(ptr1, size, L, base, 0, k);
        assert Headed(size, L, live, block, p);
        Joined(size, L, live, block, p, size[p], b, size[b], size', L, live - {b});
        block := Retag(block, b, b + size[b], p);
        size, ptr := size[p := size[p] + size[b]], ptr[p := ptr[b]];
        live := live - {b};
        assert Contains(size, L, k, b, old(size)[b]);
      } else {
        InsertOk(ptr1, size, L, base, k, b, ptr[p := b]);
        InsertMembers(L, k, b);
        LiveHeads(size, L, live, block);
        Relabelled(size, L, live, block, Insert(L, k, b), live - {b});
        ptr := ptr[p := b];
        L, live := Insert(L, k, b), live - {b};
        assert Contains(size, L, k + 1, b, old(size)[b]);
      }
    }

    /**
     * sbrk of n bytes, down to growproc.  Growth may be refused for want of memory and is beyond
     * KERNBASE.  A negative n shrinks the process, unless it is more than the process has: then
     * the new size wraps around and deallocuvm does nothing, successfully.  Shrinking to nothing
     * frees everything and yet reports failure.
     */
    method Sbrk(n: int, refuse: bool) returns (r: Option<nat>)
      requires n % HEADER == 0 && -0x8000_0000 <= n < 0x8000_0000 && 0 < brk < TOP
      modifies this`brk, this`end
      ensures if r.Some? then r == Some(old(brk)) else brk == old(brk)
      ensures n > 0 ==> (r == None <==> refuse || old(brk) + n / HEADER >= TOP)
      ensures n > 0 && r.Some? ==> brk == old(brk) + n / HEADER == end
      ensures n > 0 && r == None ==> brk == old(brk) && end == old(end)
      ensures n <= 0 && r.Some? ==>
                if n < 0 < old(brk) * HEADER + n then brk * HEADER == old(brk) * HEADER + n && end == Min(old(end), brk)
                else brk == old(brk) && end == old(end)
      ensures n <= 0 ==> (r == None <==> n == -(old(brk) * HEADER)) && (r == None ==> end == 0)
    {
      if n > 0 {
        if brk * HEADER + n >= TOP * HEADER || refuse { return None; }
        r, brk := Some(brk), brk + n / HEADER;
        end := brk;
      } else if n < 0 {
        var sz := brk * HEADER;
        var newsz := (sz + n) % UINT;
        if newsz >= sz { return Some(brk); }
        if newsz == 0 {
          end := 0;
          return None;
        }
        r, brk := Some(brk), newsz / HEADER;
        end := Min(end, brk);
      } else {
        r := Some(brk);
      }
    }

    /**
     * morecore.  What sbrk is asked for is not always what the new block is said to have: the
     * heap takes nu units from the old break on into its list, whether or not it got them.  If
     * sbrk fails the heap is as it was; but a byte count that is minus the process's size makes
     * it fail after taking all of the process's memory.
     */
    method MoreCore(nunits: nat, refuse: bool) returns (r: Option<nat>)
      requires Valid() && Backed() && 0 < nunits <= UINT / HEADER
      modifies this
      ensures Valid() && live == old(live)
      ensures r == None <==> SbrkFails(nunits, old(brk), refuse)
      ensures var n := SbrkArg(Request(nunits));
              && (n > 0 && r == None ==> Backed())
              && (n <= 0 && r == None ==> end == 0)
              && (n > 0 && r.Some? ==> Backed() && brk == old(brk) + Request(nunits))
              && (n <= 0 ==> end <= old(brk))
      ensures r == None ==> block == old(block) && L == old(L) && size == old(size) && (brk == old(brk))
      ensures r.Some? ==> r == freep && !NoneFits(size, L, nunits)
    {
      var nu := Request(nunits);
      var sb := Sbrk(SbrkArg(nu), refuse);
      if sb == None { return None; }
      TakeIn(sb.value, nu, nunits);
      r := freep;
    }

    /** The rest of morecore: nu units from hp on become a block, which is freed. */
    method TakeIn(hp: nat, nu: nat, ghost nunits: nat)
      requires Valid() && base < hp && 0 < nunits <= nu && forall u :: hp <= u < hp + nu ==> u !in block
      modifies this`ptr, this`size, this`freep, this`L, this`live, this`block
      ensures Valid() && live == old(live) && !NoneFits(size, L, nunits)
      ensures forall u {:trigger u in block} :: u in block <==> u in old(block) || hp <= u < hp + nu
    {
      ghost var block' := Claim(block, hp, hp + nu, hp);
      Grown(size, L, live, block, hp, nu, block');
      Headers(ptr, size, L, base);
      Unlisted(ptr, size, L, base, ptr, size[hp := nu]);
      size, live, block := size[hp := nu], live[hp := nu], block';
      Free(hp);
      ghost var i: nat :| i < |L| && Contains(size, L, i, hp, nu);
      assert Fits(size, L, i, nunits);
    }

    /** malloc takes free block p, number m of the list: all of it, or its last n units. */
    method Carve(prevp: nat, p: nat, ghost m: nat, n: nat) returns (h: nat)
      requires Valid() && 0 < n && 0 < m < |L| && p == L[m] && prevp == L[m - 1] && Fits(size, L, m, n)
      modifies this`ptr, this`size, this`freep, this`L, this`live, this`block
      ensures Valid() && freep == Some(prevp)
      ensures h !in old(live) && live == old(live)[h := n] && block.Keys == old(block).Keys
    {
      Headers(ptr, size, L, base);
      if size[p] == n {
        h := TakeWhole(prevp, p, m, n);
      } else {
        h := TakeTail(prevp, p, m, n);
      }
    }

    method TakeWhole(prevp: nat, p: nat, ghost m: nat, n: nat) returns (h: nat)
      requires Valid() && 0 < n && 0 < m < |L| && p == L[m] && prevp == L[m - 1] && Fits(size, L, m, n)
      requires p in size && size[p] == n
      modifies this`ptr, this`freep, this`L, this`live
      ensures Valid() && freep == Some(prevp) && h !in old(live) && live == old(live)[h := n]
    {
      Headers(ptr, size, L, base);
      Ordered(ptr, size, L, base, 0, m);
      assert Headed(size, L, live, block, p);
      RemoveOk(ptr, size, L, base, m, ptr[prevp := ptr[p]]);
      RemoveMembers(ptr, size, L, base, m);
      LiveHeads(size, L, live, block);
      Relabelled(size, L, live, block, Remove(L, m), live[p := n]);
      ptr, h, L := ptr[prevp := ptr[p]], p, Remove(L, m);
      assert prevp == L[m - 1];
      live, freep := live[h := n], Some(prevp);
    }

    method TakeTail(prevp: nat, p: nat, ghost m: nat, n: nat) returns (h: nat)
      requires Valid() && 0 < n && 0 < m < |L| && p == L[m] && prevp == L[m - 1] && Fits(size, L, m, n)
      requires p in size && size[p] != n
      modifies this`size, this`freep, this`block, this`live
      ensures Valid() && freep == Some(prevp) && h !in old(live) && live == old(live)[h := n]
      ensures block.Keys == old(block).Keys
    {
      Headers(ptr, size, L, base);
      Ordered(ptr, size, L, base, 0, m);
      assert Headed(size, L, live, block, p);
      Split(size, L, live, block, p, size[p], n);
      h := p + (size[p] - n);
      ShrinkOk(ptr, size, L, base, m, n, size[p := size[p] - n][h := n]) by {
        forall i: nat | i < |L| && i != m ensures L[i] != p {
          if i < m { Ordered(ptr, size, L, base, i, m); } else { Ordered(ptr, size, L, base, m, i); }
        }
      }
      block := Retag(block, h, h + n, h);
      size := size[p := size[p] - n][h := n];
      live, freep := live[h := n], Some(prevp);
    }

    /** The first call makes base a one-element cycle. */
    method Start()
      requires Valid() || Unused()
      modifies this`ptr, this`size, this`freep, this`L
      ensures Valid()
      ensures old(freep).Some? ==> unchanged(this)
      ensures old(freep) == None ==> L == [base] && base in size && size[base] == 0
    {
      if freep == None {
        ptr, size := ptr[base := base], size[base := 0];
        freep, L := Some(base), [base];
        assert Link(ptr, L, 0) && Room(size, L, 0);
      }
    }

    /** Does the block of n units at h hold nbytes, in memory that the process has? */
    ghost predicate Holds(h: nat, n: nat, nbytes: nat)
      reads this
    {
      n * HEADER >= nbytes + HEADER && start <= h && h + n <= end
    }

    /**
     * malloc, for every request.  It asks sbrk at most once, and only if no free block will do;
     * it fails exactly if there is none and sbrk fails; otherwise a block of exactly the rounded size,
     * overlapping no other, becomes live and every other live block stays.  The block holds the
     * request, in memory the process has, exactly for requests up to MAXREQUEST, and the heap
     * stays sound unless sbrk was asked for less than the heap takes.
     */
    method Malloc(nbytes: nat, refuse: bool) returns (r: Option<nat>, grew: bool)
      requires Sound() && nbytes < UINT
      modifies this
      ensures Valid()
      ensures nbytes <= MAXREQUEST || nbytes > UINT - HEADER ==> Sound()
      ensures r.Some? && Sound() ==> nbytes <= MAXREQUEST || nbytes > UINT - HEADER
      ensures r == None ==> !grew && live == old(live) && NoneFits(size, L, Units(nbytes)) && brk == old(brk)
      ensures r == None <==> old(freep.Some? ==> NoneFits(size, L, Units(nbytes))) && SbrkFails(Units(nbytes), old(brk), refuse)
      ensures r == None && MAXREQUEST < nbytes <= UINT - HEADER ==> end == 0
      ensures r.Some? ==> r.value !in old(live) && live == old(live)[r.value := Units(nbytes)]
      ensures r.Some? ==> (Holds(r.value, Units(nbytes), nbytes) <==> nbytes <= MAXREQUEST)
      ensures grew ==> old(freep.Some? ==> NoneFits(size, L, Units(nbytes)))
      ensures Sound() ==> brk == old(brk) + if grew then Request(Units(nbytes)) else 0
    {
      ServedIff(nbytes);
      Start();
      r, grew := Find(Units(nbytes), refuse);
      if r.Some? && Backed() { LiveInside(size, L, live, block, r.value, start, brk); }
    }

    /** What the kernel has given by the time malloc returns, if the process's size was was. */
    ghost predicate Given(n: nat, was: nat, grew: bool)
      reads this
    {
      if !grew then Backed() && brk == was
      else if SbrkArg(Request(n)) > 0 then Backed() && brk == was + Request(n)
      else end <= was
    }

    /** malloc's loop: the first free block, after the one used last, that has n units; more core once if there is none. */
    method Find(n: nat, refuse: bool) returns (r: Option<nat>, grew: bool)
      requires Valid() && Backed() && 0 < n <= UINT / HEADER
      modifies this
      ensures Valid()
      ensures r == None ==> !grew && live == old(live) && NoneFits(size, L, n) && brk == old(brk)
      ensures r == None <==> NoneFits(old(size), old(L), n) && SbrkFails(n, old(brk), refuse)
      ensures r == None ==> if SbrkArg(Request(n)) > 0 then Backed() else end == 0
      ensures r.Some? ==> r.value !in old(live) && live == old(live)[r.value := n] && Given(n, old(brk), grew)
      ensures r.Some? && !grew ==> n <= brk - start
      ensures grew ==> NoneFits(old(size), old(L), n)
    {
      grew := false;
      var prevp := freep.value;
      ghost var f, i := ScanFrom(ptr, size, L, base, prevp, n);
      var p := ptr[prevp];
      while true
        invariant Valid() && live == old(live) && Scanning(size, L, freep.value, f, i, prevp, p, n)
        invariant Given(n, old(brk), grew)
        invariant !grew ==> L == old(L) && size == old(size)
        invariant grew ==> !NoneFits(size, L, n) && NoneFits(old(size), old(L), n) && !SbrkFails(n, old(brk), refuse)
        decreases !grew, Ahead(f, i, |L|)
      {
        assert Link(ptr, L, i) && Room(size, L, i);
        if size[p] >= n {
          assert Fits(size, L, i, n) && !NoneFits(size, L, n);
          if !grew { FreeInside(ptr, size, L, base, live, block, i, n, start, brk); }
          var h := Carve(prevp, p, i, n);
          return Some(h), grew;
        }
        if p == freep.value {
          ScannedAll(ptr, size, L, base, p, f, i, prevp, n);
          var q := MoreCore(n, refuse);
          if q == None { return None, grew; }
          grew, p := true, q.value;
          f, i := ScanFrom(ptr, size, L, base, p, n);
        } else {
          i := ScanNext(ptr, size, L, base, freep.value, f, i, prevp, p, n);
        }
        prevp, p := p, ptr[p];
      }
    }

    /**
     * Any program that frees only what it holds, whenever sbrk refuses.  What it holds is what malloc gave it
     * and it has not freed, and malloc never gives what is held.  After every such run the heap is sound, its
     * units are exactly those between its start and the break, and the live blocks are exactly the ones held,
     * each of its rounded size and, if the request was at most MAXREQUEST, holding it.  The run ends early
     * exactly at a larger request, which sbrk would misread.
     */
    method Run(ops: seq<HeapOp>) returns (held: map<nat, nat>, results: seq<Option<nat>>, ghost breaks: seq<nat>)
      requires Unused() && Sound() && brk == start
      requires forall k :: 0 <= k < |ops| && ops[k].Alloc? ==> ops[k].nbytes < UINT
      modifies this
      ensures |results| <= |ops| && held == HeldAfter(ops, results, |results|)
      ensures |breaks| == |results| + 1 && breaks[0] == start && breaks[|results|] == brk
      ensures forall j: nat :: j < |results| ==> Answered(ops, results, breaks, j)
      ensures |results| < |ops| ==> Misread(ops[|results|])
      ensures |results| == |ops| ==> Sound() && Accounted(held, live)
      ensures |results| == |ops| ==> forall h :: h in held && held[h] <= MAXREQUEST ==> Holds(h, live[h], held[h])
    {
      held, results, breaks := map[], [], [brk];
      var done := 0;
      while done < |ops|
        invariant done == |results| <= |ops| && Sound() && Accounted(held, live)
        invariant held == HeldAfter(ops, results, done)
        invariant |breaks| == done + 1 && breaks[0] == start && breaks[done] == brk
        invariant forall j: nat :: j < done ==> Answered(ops, results, breaks, j)
      {
        if Misread(ops[done]) { return; }
        var r := Perform(ops[done], held);
        AnsweredMore(ops, results, breaks, r, brk);
        held, results, breaks, done := HeldNext(held, ops[done], r), results + [r], breaks + [brk], done + 1;
      }
      forall h | h in held && held[h] <= MAXREQUEST ensures Holds(h, live[h], held[h]) {
        ServedIff(held[h]);
        LiveInside(size, L, live, block, h, start, brk);
      }
    }

    /** One of its operations. */
    method Perform(op: HeapOp, held: map<nat, nat>) returns (r: Option<nat>)
      requires Sound() && Accounted(held, live) && !Misread(op) && (op.Alloc? ==> op.nbytes < UINT)
      modifies this
      ensures Sound() && Accounted(HeldNext(held, op, r), live) && Gives(held, op, r, old(brk), brk)
    {
      r := None;
      match op {
        case Alloc(nbytes, refuse) =>
          var grew;
          r, grew := Malloc(nbytes, refuse);
        case Release(b) => if b in held { Free(b); }
      }
    }
  }

  /**
   * Two gigabytes asked of a new heap, whatever the process's size: the rounding is right, sbrk is asked
   * for a negative number, and malloc returns a block that is not there.
   */
  method TwoGigabytes(base: nat, start: nat) returns (h: Heap, r: Option<nat>)
    requires base < start < TOP - 1
    ensures Units(0x8000_0000) * HEADER >= 0x8000_0000 + HEADER
    ensures SbrkArg(Request(Units(0x8000_0000))) == -0x7FFF_FFF8
    ensures r.Some? && !h.Holds(r.value, Units(0x8000_0000), 0x8000_0000) && !h.Sound()
  {
    h := new Heap(base, start);
    var grew;
    r, grew := h.Malloc(0x8000_0000, false);
  }

  /** 2^32 - 1 bytes: the rounding wraps, and malloc returns a block of one unit, for its header. */
  method RoundedToNothing(base: nat, start: nat) returns (h: Heap, r: Option<nat>)
    requires base < start && start + NALLOC < TOP
    ensures r.Some? && h.Sound() && r.value in h.live && h.live[r.value] == 1 && !h.Holds(r.value, 1, UINT - 1)
  {
    h := new Heap(base, start);
    var grew;
    r, grew := h.Malloc(UINT - 1, false);
  }

  datatype HeapOp = Alloc(nbytes: nat, refuse: bool) | Release(b: nat)

  /** The heap has exactly the units from lo to hi. */
  ghost predicate Spans(block: Words, lo: nat, hi: nat) {
    forall u {:trigger u in block} :: u in block <==> lo <= u < hi
  }

  /** A request that is rounded right but that sbrk takes for a negative number. */
  predicate Misread(op: HeapOp) {
    op.Alloc? && MAXREQUEST < op.nbytes <= UINT - HEADER
  }

  /** The blocks held, with the size asked for, after one operation whose result is r. */
  function HeldNext(held: map<nat, nat>, op: HeapOp, r: Option<nat>): map<nat, nat> {
    match op
    case Alloc(nbytes, _) => if r.Some? then held[r.value := nbytes] else held
    case Release(b) => held - {b}
  }

  /**
   * Only malloc gives, only what is not held, and it refuses only if sbrk fails at the break the process has;
   * the break moves only for it, by what it asks of sbrk.
   */
  ghost predicate Gives(held: map<nat, nat>, op: HeapOp, r: Option<nat>, brk: nat, brk': nat) {
    match op
    case Alloc(nbytes, refuse) =>
      && (r.Some? ==> r.value !in held && (brk' == brk || brk' == brk + Request(Units(nbytes))))
      && (r.None? ==> SbrkFails(Units(nbytes), brk, refuse) && brk' == brk)
    case Release(_) => r.None? && brk' == brk
  }

  ghost function HeldAfter(ops: seq<HeapOp>, results: seq<Option<nat>>, k: nat): map<nat, nat>
    requires k <= |ops| && k <= |results|
    decreases k
  {
    if k == 0 then map[] else HeldNext(HeldAfter(ops, results, k - 1), ops[k - 1], results[k - 1])
  }

  ghost predicate Answered(ops: seq<HeapOp>, results: seq<Option<nat>>, breaks: seq<nat>, j: nat) {
    && j < |ops| && j < |results| && j + 1 < |breaks|
    && Gives(HeldAfter(ops, results, j), ops[j], results[j], breaks[j], breaks[j + 1])
  }

  lemma {:induction false} HeldPrefix(ops: seq<HeapOp>, results: seq<Option<nat>>, r: Option<nat>, k: nat)
    requires k <= |results| && k <= |ops|
    ensures HeldAfter(ops, results + [r], k) == HeldAfter(ops, results, k)
    decreases k
  {
    if k > 0 { HeldPrefix(ops, results, r, k - 1); }
  }

  lemma AnsweredMore(ops: seq<HeapOp>, results: seq<Option<nat>>, breaks: seq<nat>, r: Option<nat>, brk: nat)
    requires |results| < |ops| && |breaks| == |results| + 1
    requires Gives(HeldAfter(ops, results, |results|), ops[|results|], r, breaks[|results|], brk)
    requires forall j: nat :: j < |results| ==> Answered(ops, results, breaks, j)
    ensures forall j: nat :: j < |results| + 1 ==> Answered(ops, results + [r], breaks + [brk], j)
    ensures HeldAfter(ops, results + [r], |results| + 1) == HeldNext(HeldAfter(ops, results, |results|), ops[|results|], r)
  {
    forall j: nat | j < |results| + 1 ensures Answered(ops, results + [r], breaks + [brk], j) {
      HeldPrefix(ops, results, r, j);
      if j < |results| { assert Answered(ops, results, breaks, j); }
    }
    HeldPrefix(ops, results, r, |results|);
  }

  /** The live blocks are the ones held, each of the size its request is rounded to. */
  ghost predicate Accounted(held: map<nat, nat>, live: Words) {
    held.Keys == live.Keys && forall h {:trigger live[h]} :: h in held ==> live[h] == Units(held[h])
  }

  /** A live block lies within the heap's units. */
  lemma LiveInside(size: Words, L: seq<nat>, live: Words, block: Words, h: nat, lo: nat, hi: nat)
    requires Tiled(size, L, live, block) && Spans(block, lo, hi) && h in live
    ensures lo <= h && h + live[h] <= hi
  {
    assert Headed(size, L, live, block, h);
    assert Tag(block, h, h) && Tag(block, h + live[h] - 1, h);
  }

  /** A free block of n units lies there too. */
  lemma FreeInside(ptr: Words, size: Words, L: seq<nat>, base: nat, live: Words, block: Words, i: nat, n: nat, lo: nat,
                   hi: nat)
    requires Cyclic(ptr, size, L, base) && Tiled(size, L, live, block) && Spans(block, lo, hi)
    requires i < |L| && Fits(size, L, i, n) && 0 < n
    ensures n <= hi - lo
  {
    assert Room(size, L, i) && Headed(size, L, live, block, L[i]);
    if i > 0 { Ordered(ptr, size, L, base, 0, i); }
    assert Tag(block, L[i], L[i]) && Tag(block, L[i] + size[L[i]] - 1, L[i]);
  }

  /** malloc's walk: at free block i, having passed those from number f + 1 on. */
  ghost predicate Scanning(size: Words, L: seq<nat>, freep: nat, f: nat, i: nat, prevp: nat, p: nat, n: nat) {
    && f < |L| && i < |L| && L[f] == freep && L[i] == p && prevp == L[if i > 0 then i - 1 else |L| - 1]
    && Passed(size, L, f, i, n)
  }

  /** How many blocks are ahead of number i before number f. */
  ghost function Ahead(f: nat, i: nat, len: nat): int {
    if i > f then len - i + f else f - i
  }

  lemma ScanFrom(ptr: Words, size: Words, L: seq<nat>, base: nat, freep: nat, n: nat) returns (f: nat, i: nat)
    requires Cyclic(ptr, size, L, base) && freep in L
    ensures freep in ptr && Scanning(size, L, freep, f, i, freep, ptr[freep], n)
  {
    f :| f < |L| && L[f] == freep;
    assert Link(ptr, L, f);
    i := if f + 1 < |L| then f + 1 else 0;
  }

  lemma ScanNext(ptr: Words, size: Words, L: seq<nat>, base: nat, freep: nat, f: nat, i: nat, prevp: nat, p: nat, n: nat)
    returns (j: nat)
    requires Cyclic(ptr, size, L, base) && Scanning(size, L, freep, f, i, prevp, p, n) && p != freep && !Fits(size, L, i, n)
    ensures p in ptr && Scanning(size, L, freep, f, j, p, ptr[p], n) && 0 <= Ahead(f, j, |L|) < Ahead(f, i, |L|)
  {
    assert Link(ptr, L, i);
    j := if i + 1 < |L| then i + 1 else 0;
  }

  lemma ScannedAll(ptr: Words, size: Words, L: seq<nat>, base: nat, freep: nat, f: nat, i: nat, prevp: nat, n: nat)
    requires Cyclic(ptr, size, L, base) && Scanning(size, L, freep, f, i, prevp, freep, n) && !Fits(size, L, i, n)
    ensures NoneFits(size, L, n)
  {
    SameNumber(ptr, size, L, base, i, f);
    PassedAll(size, L, f, n);
  }

  ghost predicate NoneFits(size: Words, L: seq<nat>, n: nat) {
    forall i: nat :: i < |L| ==> !Fits(size, L, i, n)
  }

  /** No free block from number f + 1 around to number i (excluded) has n units. */
  ghost predicate Passed(size: Words, L: seq<nat>, f: nat, i: nat, n: nat) {
    forall m: nat :: m < |L| && (if i > f then f < m < i else m > f || m < i) ==> !Fits(size, L, m, n)
  }

  lemma PassedAll(size: Words, L: seq<nat>, f: nat, n: nat)
    requires f < |L| && Passed(size, L, f, f, n) && !Fits(size, L, f, n)
    ensures NoneFits(size, L, n)
  {
  }

  /** The units lo .. hi now belong to block a. */
  ghost function Claim(block: Words, lo: nat, hi: nat, a: nat): (r: Words)
    ensures forall u :: u in r <==> u in block || lo <= u < hi
    ensures forall u :: u in r ==> r[u] == if lo <= u < hi then a else block[u]
    decreases hi - lo
  {
    if lo >= hi then block else Claim(block, lo + 1, hi, a)[lo := a]
  }

  /** Free block number i has n units or more. */
  ghost predicate Fits(size: Words, L: seq<nat>, i: nat, n: nat)
    requires i < |L|
  {
    L[i] in size && size[L[i]] >= n
  }

  /** Free block number i includes the n units from b on. */
  ghost predicate Contains(size: Words, L: seq<nat>, i: nat, b: nat, n: nat)
    requires i < |L|
  {
    L[i] in size && L[i] <= b && b + n <= L[i] + size[L[i]]
  }

  /** What is known of the neighbours of live block b. */
  lemma MergeFacts(ptr: Words, size: Words, L: seq<nat>, base: nat, live: Words, block: Words, k: nat, b: nat)
    requires Cyclic(ptr, size, L, base) && Tiled(size, L, live, block) && b in live && After(L, k, b)
    ensures b in size && Heads(size, L, live, b, size[b])
    ensures forall i {:trigger L[i]} :: 0 <= i < |L| ==> L[i] in ptr && L[i] in size
    ensures L[k] + size[L[k]] <= b && (size[L[k]] == 0 <==> k == 0)
    ensures ptr[L[k]] == if k + 1 < |L| then L[k + 1] else base
    ensures b + size[b] == ptr[L[k]] ==> k + 1 < |L| && Heads(size, L, live, L[k + 1], size[L[k + 1]])
    ensures k + 1 < |L| ==> b + size[b] <= L[k + 1]
  {
    Headers(ptr, size, L, base);
    assert Headed(size, L, live, block, b);
    HeadTag(size, L, live, block, b, size[b]);
    assert Link(ptr, L, k) && Room(size, L, k) && Headed(size, L, live, block, L[k]);
    if k > 0 {
      Ordered(ptr, size, L, base, 0, k);
      Disjoint(size, L, live, block, L[k], size[L[k]], b, size[b]);
    }
    if k + 1 < |L| {
      Ordered(ptr, size, L, base, 0, k + 1);
      assert Headed(size, L, live, block, L[k + 1]);
      Disjoint(size, L, live, block, b, size[b], L[k + 1], size[L[k + 1]]);
    }
  }

  /** After b has taken over its upper neighbour. */
  lemma MergedUp(ptr: Words, size: Words, L: seq<nat>, base: nat, k: nat, b: nat)
    requires Cyclic(ptr, size, L, base) && After(L, k, b) && k + 1 < |L| && b in size && b + size[b] == L[k + 1]
    requires L[k + 1] in ptr && L[k + 1] in size
    ensures var size' := size[b := size[b] + size[L[k + 1]]];
            var ptr' := ptr[b := ptr[L[k + 1]]];
            var M := Remove(L, k + 1);
            && After(M, k, b) && M[k] == L[k]
            && Cyclic(ptr'[L[k] := ptr'[b]], size', M, base)
            && (k + 1 < |M| ==> b + size'[b] < M[k + 1])
  {
    var M := Remove(L, k + 1);
    NotListed(ptr, size, L, base, k, b);
    RemoveOk(ptr, size, L, base, k + 1, ptr[L[k] := ptr[L[k + 1]]]);
    Headers(ptr[L[k] := ptr[L[k + 1]]], size, M, base);
    assert Room(size, L, k + 1);
    Unlisted(ptr[L[k] := ptr[L[k + 1]]], size, M, base,
             ptr[b := ptr[L[k + 1]]][L[k] := ptr[L[k + 1]]], size[b := size[b] + size[L[k + 1]]]);
  }

  /** All that b's taking over its upper neighbour keeps. */
  lemma UpFacts(ptr: Words, size: Words, L: seq<nat>, base: nat, live: Words, block: Words, k: nat, b: nat)
    requires Cyclic(ptr, size, L, base) && Tiled(size, L, live, block) && b in live && After(L, k, b) && k + 1 < |L|
    requires b in size && b + size[b] == L[k + 1]
    ensures L[k] in ptr && ptr[L[k]] == L[k + 1] && L[k + 1] in ptr && L[k + 1] in size
    ensures var q, M := L[k + 1], Remove(L, k + 1);
            var size', ptr' := size[b := size[b] + size[q]], ptr[b := ptr[q]];
            && After(M, k, b) && M[k] == L[k] && Cyclic(ptr'[L[k] := ptr'[b]], size', M, base)
            && (k + 1 < |M| ==> b + size'[b] < M[k + 1])
            && Tiled(size', M, live[b := size'[b]], Retag(block, q, q + size[q], b))
  {
    MergeFacts(ptr, size, L, base, live, block, k, b);
    var q, M := L[k + 1], Remove(L, k + 1);
    var size' := size[b := size[b] + size[q]];
    RemoveOk(ptr, size, L, base, k + 1, ptr[L[k] := ptr[q]]);
    RemoveMembers(ptr, size, L, base, k + 1);
    Joined(size, L, live, block, b, size[b], q, size[q], size', M, live[b := size'[b]]);
    MergedUp(ptr, size, L, base, k, b);
  }

  /** Every live block has a place in the address order of the free list. */
  lemma {:induction false} Predecessor(ptr: Words, size: Words, L: seq<nat>, base: nat, live: Words, block: Words,
                                       b: nat) returns (k: nat)
    requires Cyclic(ptr, size, L, base) && Tiled(size, L, live, block) && b in live
    ensures After(L, k, b)
  {
    assert Headed(size, L, live, block, b);
    HeadTag(size, L, live, block, b, size[b]);
    k := 0;
    while k + 1 < |L| && L[k + 1] < b
      invariant k < |L| && L[k] < b
    {
      k := k + 1;
    }
  }

  lemma SameNumber(ptr: Words, size: Words, L: seq<nat>, base: nat, i: nat, j: nat)
    requires Cyclic(ptr, size, L, base) && i < |L| && j < |L| && L[i] == L[j]
    ensures i == j
  {
    if i < j { Ordered(ptr, size, L, base, i, j); }
    if j < i { Ordered(ptr, size, L, base, j, i); }
  }

  /** Unit u lies in the block headed by x. */
  ghost predicate InBlock(size: Words, L: seq<nat>, live: Words, x: nat, u: nat) {
    x in size && Heads(size, L, live, x, size[x]) && x <= u < x + size[x]
  }

  /** The heap invariant, spelt out: free and live blocks partition exactly the units obtained from sbrk. */
  lemma UnitsPartitioned(size: Words, L: seq<nat>, live: Words, block: Words, lo: nat, hi: nat, u: nat)
    requires Tiled(size, L, live, block) && Spans(block, lo, hi)
    ensures lo <= u < hi <==> exists x: nat :: InBlock(size, L, live, x, u)
    ensures forall x: nat, y: nat :: InBlock(size, L, live, x, u) && InBlock(size, L, live, y, u) ==> x == y
  {
    assert Owned(size, L, live, block, u);
    if u in block {
      assert Headed(size, L, live, block, block[u]);
      assert InBlock(size, L, live, block[u], u);
    }
    forall x: nat | InBlock(size, L, live, x, u) ensures Tag(block, u, x) {
      HeadTag(size, L, live, block, x, size[x]);
    }
  }

  /** The list goes up in address order, with a gap after every block, and wraps once, to base. */
  lemma OneWrap(ptr: Words, size: Words, L: seq<nat>, base: nat, i: nat)
    requires Cyclic(ptr, size, L, base) && i < |L|
    ensures L[i] in ptr && L[i] in size
    ensures i + 1 < |L| ==> ptr[L[i]] == L[i + 1] && L[i] + size[L[i]] < ptr[L[i]]
    ensures i + 1 == |L| ==> ptr[L[i]] == base <= L[i]
  {
    assert Link(ptr, L, i) && Room(size, L, i);
    Headers(ptr, size, L, base);
  }
}
