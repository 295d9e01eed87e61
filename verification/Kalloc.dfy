/**
 * The physical page allocator: a linked list of free frames, each link stored in the free
 * frame itself.  Frames are named by number; 0 is the null pointer.
 */
module Kalloc {

  /** From head, following next, the frames of list one by one. */
  ghost predicate Linked(head: nat, next: map<nat, nat>, list: seq<nat>) {
    && head == At(list, 0)
    && (forall i: nat {:trigger list[i]} :: i < |list| ==> list[i] != 0 && list[i] in next && next[list[i]] == At(list, i + 1))
  }

  ghost function At(list: seq<nat>, i: nat): nat {
    if i < |list| then list[i] else 0
  }

  lemma Pushed(head: nat, next: map<nat, nat>, list: seq<nat>, f: nat)
    requires Linked(head, next, list) && f != 0 && f !in list
    ensures Linked(f, next[f := head], [f] + list)
  {
    var list' := [f] + list;
    forall i: nat | i < |list'| ensures list'[i] != 0 && list'[i] in next[f := head] && next[f := head][list'[i]] == At(list', i + 1) {
      if i > 0 { assert list'[i] == list[i - 1]; }
    }
  }

  lemma Popped(head: nat, next: map<nat, nat>, list: seq<nat>)
    requires Linked(head, next, list) && list != []
    ensures head != 0 && head in next && Linked(next[head], next, list[1..])
  {
    var list' := list[1..];
    assert head == list[0];
    forall i: nat | i < |list'| ensures list'[i] != 0 && list'[i] in next && next[list'[i]] == At(list', i + 1) {
      assert list'[i] == list[i + 1];
    }
  }

  class Kmem {
    /** The frames after the kernel's image and below PHYSTOP. */
    const first: nat
    const top: nat
    var head: nat
    var next: map<nat, nat>
    ghost var list: seq<nat>

    ghost predicate Valid()
      reads this
    {
      0 < first && Linked(head, next, list)
    }

    /** kinit: freerange frees every frame from first to top. */
    constructor (first: nat, top: nat)
      requires 0 < first <= top
      ensures Valid() && this.first == first && this.top == top
      ensures forall f: nat :: multiset(list)[f] == if first <= f < top then 1 else 0
    {
      this.first, this.top := first, top;
      head, next, list := 0, map[], [];
      new;
      var p := first;
      while p < top
        invariant first <= p <= top && Valid()
        invariant forall f: nat :: multiset(list)[f] == if first <= f < p then 1 else 0
      {
        assert multiset(list)[p] == 0;
        var ok := Kfree(p);
        p := p + 1;
      }
    }

    /** kfree panics outside the range; otherwise f goes to the head of the list. */
    method Kfree(f: nat) returns (ok: bool)
      requires Valid() && f !in list
      modifies this
      ensures Valid() && (ok <==> first <= f < top)
      ensures list == if ok then [f] + old(list) else old(list)
    {
      if f < first || f >= top { return false; }
      Pushed(head, next, list, f);
      next, head, list := next[f := head], f, [f] + list;
      ok := true;
    }

    /** kalloc takes the head of the list, 0 if it is empty. */
    method Kalloc() returns (f: nat)
      requires Valid()
      modifies this
      ensures Valid() && (f == 0 <==> old(list) == [])
      ensures if f == 0 then list == old(list) else old(list) == [f] + list
    {
      f := head;
      if f != 0 {
        Popped(head, next, list);
        head, list := next[f], list[1..];
      }
    }
  }
}
