/**
 * The K&R free list as a list.  Addresses count header-sized units.  L is the cycle
 * starting at base, whose address is below the heap; ptr and size are the two header
 * fields, by address.
 */
module FreeList {

  type Words = map<nat, nat>

  /** The i-th header points to the next one, the last to the first. */
  ghost predicate Link(ptr: Words, L: seq<nat>, i: nat)
    requires i < |L|
  {
    L[i] in ptr && ptr[L[i]] == if i + 1 < |L| then L[i + 1] else L[0]
  }

  /** Only base is empty; the i-th block ends before the next one, and does not touch it. */
  ghost predicate Room(size: Words, L: seq<nat>, i: nat)
    requires i < |L|
  {
    && L[i] in size && (size[L[i]] == 0 <==> i == 0)
    && (i + 1 < |L| ==> L[i] + size[L[i]] < L[i + 1])
  }

  ghost predicate Cyclic(ptr: Words, size: Words, L: seq<nat>, base: nat) {
    && |L| >= 1 && L[0] == base
    && (forall i: nat :: i < |L| ==> Link(ptr, L, i))
    && (forall i: nat :: i < |L| ==> Room(size, L, i))
  }

  /** The list is in address order, with room in between. */
  lemma {:induction false} Ordered(ptr: Words, size: Words, L: seq<nat>, base: nat, i: nat, j: nat)
    requires Cyclic(ptr, size, L, base) && i < j < |L|
    ensures L[i] in size && L[i] + size[L[i]] < L[j]
    decreases j
  {
    assert Room(size, L, i);
    if i + 1 < j {
      Ordered(ptr, size, L, base, i, j - 1);
      assert Room(size, L, j - 1);
    }
  }

  /** b lies right after the k-th free block, in address order. */
  ghost predicate After(L: seq<nat>, k: nat, b: nat) {
    k < |L| && L[k] < b && (k + 1 < |L| ==> b < L[k + 1])
  }

  // ---- Changing the list ----------------------------------------------------------

  ghost function Insert(L: seq<nat>, k: nat, b: nat): (M: seq<nat>)
    requires k < |L|
    ensures |M| == |L| + 1
    ensures forall i {:trigger M[i]} :: 0 <= i < |M| ==> M[i] == if i <= k then L[i] else if i == k + 1 then b else L[i - 1]
  {
    L[..k + 1] + [b] + L[k + 1..]
  }

  ghost function Remove(L: seq<nat>, m: nat): (M: seq<nat>)
    requires m < |L|
    ensures |M| == |L| - 1
    ensures forall i {:trigger M[i]} :: 0 <= i < |M| ==> M[i] == if i < m then L[i] else L[i + 1]
  {
    L[..m] + L[m + 1..]
  }

  /** b differs from every listed address. */
  lemma NotListed(ptr: Words, size: Words, L: seq<nat>, base: nat, k: nat, b: nat)
    requires Cyclic(ptr, size, L, base) && After(L, k, b)
    ensures forall i :: 0 <= i < |L| ==> (i <= k ==> L[i] < b) && (i > k ==> b < L[i])
  {
    forall i | 0 <= i < |L| ensures (i <= k ==> L[i] < b) && (i > k ==> b < L[i]) {
      if i < k { Ordered(ptr, size, L, base, i, k); }
      else if i > k + 1 { Ordered(ptr, size, L, base, k + 1, i); }
    }
  }

  /** A block that touches neither neighbour is linked in between them. */
  lemma InsertOk(ptr: Words, size: Words, L: seq<nat>, base: nat, k: nat, b: nat, ptr': Words)
    requires Cyclic(ptr, size, L, base) && After(L, k, b) && L[k] in ptr && L[k] in size
    requires b in size && size[b] > 0 && L[k] + size[L[k]] < b
    requires k + 1 < |L| ==> b + size[b] < L[k + 1]
    requires ptr' == ptr[b := ptr[L[k]]][L[k] := b]
    ensures Cyclic(ptr', size, Insert(L, k, b), base)
  {
    var M := Insert(L, k, b);
    NotListed(ptr, size, L, base, k, b);
    forall i: nat | i < |M| ensures Link(ptr', M, i) && Room(size, M, i) {
      var j := if i <= k then i else i - 1;
      assert Link(ptr, L, j) && Room(size, L, j) && Link(ptr, L, k) && Room(size, L, k);
      if j < k { Ordered(ptr, size, L, base, j, k); } else if k < j { Ordered(ptr, size, L, base, k, j); }
    }
  }

  /** A block that touches the free block before it is added to it. */
  lemma MergeDownOk(ptr: Words, size: Words, L: seq<nat>, base: nat, k: nat, n: nat, size': Words)
    requires Cyclic(ptr, size, L, base) && 0 < k < |L| && L[k] in size
    requires k + 1 < |L| ==> L[k] + size[L[k]] + n < L[k + 1]
    requires size' == size[L[k] := size[L[k]] + n]
    ensures Cyclic(ptr, size', L, base)
  {
    forall i: nat | i < |L| ensures Link(ptr, L, i) && Room(size', L, i) {
      assert Link(ptr, L, i) && Room(size, L, i) && Room(size, L, k);
      if i < k { Ordered(ptr, size, L, base, i, k); } else if k < i { Ordered(ptr, size, L, base, k, i); }
    }
  }

  /** A listed block is unlinked. */
  lemma RemoveOk(ptr: Words, size: Words, L: seq<nat>, base: nat, m: nat, ptr': Words)
    requires Cyclic(ptr, size, L, base) && 0 < m < |L| && L[m] in ptr
    requires ptr' == ptr[L[m - 1] := ptr[L[m]]]
    ensures Cyclic(ptr', size, Remove(L, m), base)
  {
    var M := Remove(L, m);
    forall i: nat | i < |M| ensures Link(ptr', M, i) && Room(size, M, i) {
      var j := if i < m then i else i + 1;
      assert Link(ptr, L, j) && Room(size, L, j) && Link(ptr, L, m) && Room(size, L, m) && Room(size, L, m - 1);
      if j < m - 1 { Ordered(ptr, size, L, base, j, m - 1); } else if m - 1 < j { Ordered(ptr, size, L, base, m - 1, j); }
    }
  }

  /** The tail of a listed block is cut off. */
  lemma ShrinkOk(ptr: Words, size: Words, L: seq<nat>, base: nat, m: nat, n: nat, size': Words)
    requires Cyclic(ptr, size, L, base) && 0 < m < |L| && L[m] in size && n < size[L[m]]
    requires forall i: nat :: i < |L| && i != m ==> L[i] in size' && L[i] in size && size'[L[i]] == size[L[i]]
    requires L[m] in size' && size'[L[m]] == size[L[m]] - n
    ensures Cyclic(ptr, size', L, base)
  {
    forall i: nat | i < |L| ensures Link(ptr, L, i) && Room(size', L, i) {
      assert Link(ptr, L, i) && Room(size, L, i) && Room(size, L, m);
    }
  }

  /** Headers off the list do not matter. */
  lemma Unlisted(ptr: Words, size: Words, L: seq<nat>, base: nat, ptr': Words, size': Words)
    requires Cyclic(ptr, size, L, base)
    requires forall i {:trigger L[i]} :: 0 <= i < |L| ==> L[i] in ptr && L[i] in ptr' && ptr'[L[i]] == ptr[L[i]]
    requires forall i {:trigger L[i]} :: 0 <= i < |L| ==> L[i] in size && L[i] in size' && size'[L[i]] == size[L[i]]
    ensures Cyclic(ptr', size', L, base)
  {
    forall i: nat | i < |L| ensures Link(ptr', L, i) && Room(size', L, i) {
      assert Link(ptr, L, i) && Room(size, L, i);
    }
  }

  lemma Headers(ptr: Words, size: Words, L: seq<nat>, base: nat)
    requires Cyclic(ptr, size, L, base)
    ensures forall i {:trigger L[i]} :: 0 <= i < |L| ==> L[i] in ptr && L[i] in size && base <= L[i]
  {
    forall i {:trigger L[i]} | 0 <= i < |L| ensures L[i] in ptr && L[i] in size && base <= L[i] {
      assert Link(ptr, L, i) && Room(size, L, i);
      if i > 0 { Ordered(ptr, size, L, base, 0, i); }
    }
  }

  lemma InsertMembers(L: seq<nat>, k: nat, b: nat)
    requires k < |L|
    ensures forall x :: x in Insert(L, k, b) <==> x in L || x == b
  {
    var M := Insert(L, k, b);
    forall x ensures x in M <==> x in L || x == b {
      if x in L { var i :| 0 <= i < |L| && L[i] == x; assert M[if i <= k then i else i + 1] == x; }
      if x == b { assert M[k + 1] == x; }
    }
  }

  lemma RemoveMembers(ptr: Words, size: Words, L: seq<nat>, base: nat, m: nat)
    requires Cyclic(ptr, size, L, base) && m < |L|
    ensures forall x :: x in Remove(L, m) <==> x in L && x != L[m]
  {
    var M := Remove(L, m);
    forall x ensures x in M <==> x in L && x != L[m] {
      if x in L && x != L[m] { var i :| 0 <= i < |L| && L[i] == x; assert M[if i < m then i else i - 1] == x; }
      if x in M {
        var i :| 0 <= i < |M| && M[i] == x;
        if i < m { Ordered(ptr, size, L, base, i, m); } else { Ordered(ptr, size, L, base, m, i + 1); }
      }
    }
  }
}
