/**
 * The two-level page table of one address space and who owns each physical frame.  Pages and
 * frames are named by number: page v is entry Ptx(v) of the table that directory entry Pdx(v)
 * points to.  Pages below UPAGES are the user's; the kernel's mappings above own no frame.
 */
module PageTable {
  import opened Basics
  import opened Kalloc

  const NENTRIES: nat := 1024
  const NPAGES: nat := 0x10_0000
  /** KERNBASE / PGSIZE */
  const UPAGES: nat := 0x8_0000

  /** PTE_P, PTE_PG and PTE_ADDR of a page table entry. */
  datatype Pte = Pte(present: bool, paged: bool, frame: nat)

  const EMPTY: Pte := Pte(false, false, 0)

  datatype Owner = Free | Held | Directory | TableOf(d: nat) | PageOf(v: nat)

  function Pdx(v: nat): nat { v / NENTRIES }
  function Ptx(v: nat): nat { v % NENTRIES }

  // ---- The flat view -----------------------------------------------------------------------

  ghost predicate TableAt(dir: seq<nat>, tables: map<nat, seq<Pte>>, d: nat)
    requires d < |dir|
  {
    dir[d] != 0 ==> dir[d] in tables && |tables[dir[d]]| == NENTRIES
  }

  ghost predicate Shape(dir: seq<nat>, tables: map<nat, seq<Pte>>) {
    && |dir| == NENTRIES
    && (forall d: nat :: d < |dir| ==> TableAt(dir, tables, d))
  }

  /** Page v's entry, empty where there is no table. */
  ghost function Lookup(dir: seq<nat>, tables: map<nat, seq<Pte>>, v: nat): Pte
    requires Shape(dir, tables) && v < NPAGES
  {
    assert TableAt(dir, tables, Pdx(v));
    if dir[Pdx(v)] == 0 then EMPTY else tables[dir[Pdx(v)]][Ptx(v)]
  }

  /** The entries of the second page table are those of the first, but for page v's, now e. */
  ghost predicate Changed(dir: seq<nat>, tables: map<nat, seq<Pte>>, dir': seq<nat>, tables': map<nat, seq<Pte>>,
                          v: nat, e: Pte)
  {
    && Shape(dir, tables) && Shape(dir', tables')
    && (forall u: nat {:trigger Lookup(dir', tables', u)} :: u < NPAGES ==>
          Lookup(dir', tables', u) == if u == v then e else Lookup(dir, tables, u))
  }

  /** The same entries. */
  ghost predicate Alike(dir: seq<nat>, tables: map<nat, seq<Pte>>, dir': seq<nat>, tables': map<nat, seq<Pte>>)
  {
    && Shape(dir, tables) && Shape(dir', tables')
    && (forall u: nat {:trigger Lookup(dir', tables', u)} :: u < NPAGES ==> Lookup(dir', tables', u) == Lookup(dir, tables, u))
  }

  // ---- Who owns each frame -------------------------------------------------------------------

  ghost predicate FrameAt(dir: seq<nat>, tables: map<nat, seq<Pte>>, free: seq<nat>, own: map<nat, Owner>, pgdir: nat,
                          f: nat)
    requires Shape(dir, tables)
  {
    if f !in own then f !in free
    else match own[f]
      case Free => multiset(free)[f] == 1
      case Held => f !in free
      case Directory => f !in free && f == pgdir
      case TableOf(d) => f !in free && d < NENTRIES && dir[d] == f
      case PageOf(v) => f !in free && v < UPAGES && Lookup(dir, tables, v).present && Lookup(dir, tables, v).frame == f
  }

  ghost predicate DirAt(dir: seq<nat>, own: map<nat, Owner>, d: nat)
    requires d < |dir|
  {
    dir[d] != 0 ==> dir[d] in own && own[dir[d]] == TableOf(d)
  }

  ghost predicate EntryAt(dir: seq<nat>, tables: map<nat, seq<Pte>>, own: map<nat, Owner>, v: nat)
    requires Shape(dir, tables) && v < NPAGES
  {
    var e := Lookup(dir, tables, v);
    && (e.present ==> e.frame in own && own[e.frame] == PageOf(v))
    && (e.paged ==> !e.present && e.frame != 0)
    && (!e.present && !e.paged ==> e == EMPTY)
  }

  ghost predicate Dirs(dir: seq<nat>, own: map<nat, Owner>) {
    forall d: nat :: d < |dir| ==> DirAt(dir, own, d)
  }

  /** Every frame is on the free list once, or has one owner, and every owner owns its frame. */
  ghost predicate Owned(dir: seq<nat>, tables: map<nat, seq<Pte>>, free: seq<nat>, own: map<nat, Owner>, pgdir: nat) {
    && Shape(dir, tables) && Dirs(dir, own) && 0 !in own
    && (forall f: nat :: FrameAt(dir, tables, free, own, pgdir, f))
    && (forall v: nat :: v < UPAGES ==> EntryAt(dir, tables, own, v))
  }

  // ---- Changes to the tables -----------------------------------------------------------------

  /** Page v's entry is written. */
  lemma EntrySet(dir: seq<nat>, tables: map<nat, seq<Pte>>, own: map<nat, Owner>, v: nat, e: Pte)
    requires Shape(dir, tables) && Dirs(dir, own) && v < NPAGES && dir[Pdx(v)] != 0
    ensures TableAt(dir, tables, Pdx(v))
    ensures var t := dir[Pdx(v)]; Changed(dir, tables, dir, tables[t := tables[t][Ptx(v) := e]], v, e)
  {
    var t := dir[Pdx(v)];
    assert TableAt(dir, tables, Pdx(v)) && DirAt(dir, own, Pdx(v));
    var tables' := tables[t := tables[t][Ptx(v) := e]];
    forall d: nat | d < |dir| ensures TableAt(dir, tables', d) { assert TableAt(dir, tables, d); }
    forall u: nat | u < NPAGES ensures Lookup(dir, tables', u) == if u == v then e else Lookup(dir, tables, u) {
      assert TableAt(dir, tables, Pdx(u)) && DirAt(dir, own, Pdx(u));
    }
  }

  /** Directory entry d gets a table of empty entries in a frame that was not a table. */
  lemma TableNew(dir: seq<nat>, tables: map<nat, seq<Pte>>, own: map<nat, Owner>, d: nat, f: nat, blank: seq<Pte>)
    requires Shape(dir, tables) && Dirs(dir, own) && d < NENTRIES && dir[d] == 0
    requires f != 0 && f in own && !own[f].TableOf? && |blank| == NENTRIES && forall i :: 0 <= i < |blank| ==> blank[i] == EMPTY
    ensures Alike(dir, tables, dir[d := f], tables[f := blank])
  {
    var dir', tables' := dir[d := f], tables[f := blank];
    forall c: nat | c < |dir'| ensures TableAt(dir', tables', c) { assert TableAt(dir, tables, c); }
    forall u: nat | u < NPAGES ensures Lookup(dir', tables', u) == Lookup(dir, tables, u) {
      assert TableAt(dir, tables, Pdx(u)) && DirAt(dir, own, Pdx(u));
    }
  }

  // ---- Changes of owner ------------------------------------------------------------------------

  /** kalloc. */
  lemma Taken(dir: seq<nat>, tables: map<nat, seq<Pte>>, free: seq<nat>, own: map<nat, Owner>, pgdir: nat, f: nat)
    requires Owned(dir, tables, [f] + free, own, pgdir)
    ensures f in own && own[f] == Free && Owned(dir, tables, free, own[f := Held], pgdir)
  {
    var own' := own[f := Held];
    assert multiset([f] + free) == multiset{f} + multiset(free);
    assert f in [f] + free && FrameAt(dir, tables, [f] + free, own, pgdir, f);
    forall g: nat ensures FrameAt(dir, tables, free, own', pgdir, g) { assert FrameAt(dir, tables, [f] + free, own, pgdir, g); }
    forall d: nat | d < |dir| ensures DirAt(dir, own', d) { assert DirAt(dir, own, d); }
    forall v: nat | v < UPAGES ensures EntryAt(dir, tables, own', v) { assert EntryAt(dir, tables, own, v); }
  }

  /** kfree of a frame that nothing else owns. */
  lemma Given(dir: seq<nat>, tables: map<nat, seq<Pte>>, free: seq<nat>, own: map<nat, Owner>, pgdir: nat, f: nat)
    requires Owned(dir, tables, free, own, pgdir) && f in own && own[f] == Held
    ensures f !in free && Owned(dir, tables, [f] + free, own[f := Free], pgdir)
  {
    var own', free' := own[f := Free], [f] + free;
    assert multiset(free') == multiset{f} + multiset(free);
    assert FrameAt(dir, tables, free, own, pgdir, f);
    forall g: nat ensures FrameAt(dir, tables, free', own', pgdir, g) { assert FrameAt(dir, tables, free, own, pgdir, g); }
    forall d: nat | d < |dir| ensures DirAt(dir, own', d) { assert DirAt(dir, own, d); }
    forall v: nat | v < UPAGES ensures EntryAt(dir, tables, own', v) { assert EntryAt(dir, tables, own, v); }
  }

  /** A held frame becomes the table of directory entry d. */
  lemma TableAdded(dir: seq<nat>, tables: map<nat, seq<Pte>>, free: seq<nat>, own: map<nat, Owner>, pgdir: nat, d: nat,
                   f: nat, blank: seq<Pte>)
    requires Owned(dir, tables, free, own, pgdir) && d < NENTRIES && dir[d] == 0 && f in own && own[f] == Held
    requires Alike(dir, tables, dir[d := f], tables[f := blank])
    ensures Owned(dir[d := f], tables[f := blank], free, own[f := TableOf(d)], pgdir)
  {
    var dir', tables', own' := dir[d := f], tables[f := blank], own[f := TableOf(d)];
    forall g: nat ensures FrameAt(dir', tables', free, own', pgdir, g) {
      assert FrameAt(dir, tables, free, own, pgdir, g);
    }
    forall c: nat | c < |dir'| ensures DirAt(dir', own', c) { assert DirAt(dir, own, c); }
    forall v: nat | v < UPAGES ensures EntryAt(dir', tables', own', v) { assert EntryAt(dir, tables, own, v); }
  }

  /** A user page that was not present is mapped to a held frame. */
  lemma Mapped(dir: seq<nat>, tables: map<nat, seq<Pte>>, free: seq<nat>, own: map<nat, Owner>, pgdir: nat, v: nat,
               f: nat, tables': map<nat, seq<Pte>>)
    requires Owned(dir, tables, free, own, pgdir) && v < UPAGES && !Lookup(dir, tables, v).present && f in own
    requires own[f] == Held
    requires Changed(dir, tables, dir, tables', v, Pte(true, false, f))
    ensures Owned(dir, tables', free, own[f := PageOf(v)], pgdir)
  {
    var own' := own[f := PageOf(v)];
    forall g: nat ensures FrameAt(dir, tables', free, own', pgdir, g) { assert FrameAt(dir, tables, free, own, pgdir, g); }
    forall d: nat | d < |dir| ensures DirAt(dir, own', d) { assert DirAt(dir, own, d); }
    forall u: nat | u < UPAGES ensures EntryAt(dir, tables', own', u) { assert EntryAt(dir, tables, own, u); }
  }

  /** A user page stops being present: its frame is held, to be freed. */
  lemma Unmapped(dir: seq<nat>, tables: map<nat, seq<Pte>>, free: seq<nat>, own: map<nat, Owner>, pgdir: nat, v: nat,
                 e: Pte, tables': map<nat, seq<Pte>>)
    requires Owned(dir, tables, free, own, pgdir) && v < UPAGES && Lookup(dir, tables, v).present && !e.present
    requires Changed(dir, tables, dir, tables', v, e) && if e.paged then e.frame != 0 else e == EMPTY
    ensures var f := Lookup(dir, tables, v).frame;
            f in own && own[f] == PageOf(v) && Owned(dir, tables', free, own[f := Held], pgdir)
  {
    var f := Lookup(dir, tables, v).frame;
    assert EntryAt(dir, tables, own, v);
    var own' := own[f := Held];
    forall g: nat ensures FrameAt(dir, tables', free, own', pgdir, g) {
      assert FrameAt(dir, tables, free, own, pgdir, g) && FrameAt(dir, tables, free, own, pgdir, f);
    }
    forall d: nat | d < |dir| ensures DirAt(dir, own', d) { assert DirAt(dir, own, d); }
    forall u: nat | u < UPAGES ensures EntryAt(dir, tables', own', u) { assert EntryAt(dir, tables, own, u); }
  }

  /** An entry that is not present is rewritten, still not present: no owner changes. */
  lemma Rewritten(dir: seq<nat>, tables: map<nat, seq<Pte>>, free: seq<nat>, own: map<nat, Owner>, pgdir: nat, v: nat,
                  e: Pte, tables': map<nat, seq<Pte>>)
    requires Owned(dir, tables, free, own, pgdir) && v < NPAGES
    requires (v < UPAGES ==> !Lookup(dir, tables, v).present && !e.present)
    requires Changed(dir, tables, dir, tables', v, e) && (v < UPAGES ==> if e.paged then e.frame != 0 else e == EMPTY)
    ensures Owned(dir, tables', free, own, pgdir)
  {
    forall g: nat ensures FrameAt(dir, tables', free, own, pgdir, g) { assert FrameAt(dir, tables, free, own, pgdir, g); }
    forall u: nat | u < UPAGES ensures EntryAt(dir, tables', own, u) { assert EntryAt(dir, tables, own, u); }
  }

  ghost predicate NonePresent(dir: seq<nat>, tables: map<nat, seq<Pte>>)
    requires Shape(dir, tables)
  {
    forall v: nat :: v < UPAGES ==> !Lookup(dir, tables, v).present
  }

  /** With no user page present, table d can be taken out of the directory. */
  lemma TableDropped(dir: seq<nat>, tables: map<nat, seq<Pte>>, free: seq<nat>, own: map<nat, Owner>, pgdir: nat, d: nat)
    requires Owned(dir, tables, free, own, pgdir) && d < NENTRIES && dir[d] != 0
    requires NonePresent(dir, tables)
    ensures dir[d] in own && own[dir[d]] == TableOf(d) && Owned(dir[d := 0], tables, free, own[dir[d] := Held], pgdir)
    ensures NonePresent(dir[d := 0], tables)
  {
    assert DirAt(dir, own, d);
    var dir', own' := dir[d := 0], own[dir[d] := Held];
    forall c: nat | c < |dir'| ensures TableAt(dir', tables, c) && DirAt(dir', own', c) {
      assert TableAt(dir, tables, c) && DirAt(dir, own, c);
    }
    forall v: nat | v < UPAGES ensures !Lookup(dir', tables, v).present && EntryAt(dir', tables, own', v) {
      assert EntryAt(dir, tables, own, v) && !Lookup(dir, tables, v).present;
    }
    forall g: nat ensures FrameAt(dir', tables, free, own', pgdir, g) {
      assert FrameAt(dir, tables, free, own, pgdir, g) && FrameAt(dir, tables, free, own, pgdir, dir[d]);
    }
  }

  /** No frame appears or disappears, and others hold exactly what they held but for the frames in s. */
  ghost predicate Retains(own: map<nat, Owner>, own': map<nat, Owner>, s: set<nat>) {
    && own.Keys == own'.Keys
    && (forall f {:trigger own'[f]} :: f in own ==> (own'[f] == Held <==> own[f] == Held && f !in s))
  }

  /** The same, but for the frames from f on that user pages v to v + k took. */
  ghost predicate RetainsRange(own: map<nat, Owner>, own': map<nat, Owner>, v: nat, f: nat, k: nat) {
    && own.Keys == own'.Keys
    && (forall g {:trigger own'[g]} :: g in own ==>
          (own'[g] == Held <==> own[g] == Held && !(f <= g < f + k && v + g - f < UPAGES)))
  }

  lemma RetainsNext(own: map<nat, Owner>, mid: map<nat, Owner>, own': map<nat, Owner>, v: nat, f: nat, k: nat)
    requires RetainsRange(own, mid, v, f, k) && Retains(mid, own', if v + k < UPAGES then {f + k} else {})
    ensures RetainsRange(own, own', v, f, k + 1)
  {
    forall g | g in own ensures own'[g] == Held <==> own[g] == Held && !(f <= g < f + k + 1 && v + g - f < UPAGES) {
      assert mid[g] == Held <==> own[g] == Held && !(f <= g < f + k && v + g - f < UPAGES);
    }
  }

  /** Pages v to v + k are mapped to frames f to f + k, and nothing else changed. */
  ghost predicate MappedRange(dir: seq<nat>, tables: map<nat, seq<Pte>>, dir': seq<nat>, tables': map<nat, seq<Pte>>,
                              v: nat, k: nat, f: nat) {
    && Shape(dir, tables) && Shape(dir', tables')
    && (forall u: nat {:trigger Lookup(dir', tables', u)} :: u < NPAGES ==>
          Lookup(dir', tables', u) == if v <= u < v + k then Pte(true, false, f + u - v) else Lookup(dir, tables, u))
  }

  /** The frames for the user pages among v + k to v + n are the caller's to map. */
  ghost predicate HeldRange(own: map<nat, Owner>, v: nat, f: nat, k: nat, n: nat) {
    forall g: nat {:trigger own[g]} {:trigger g in own} :: f + k <= g < f + n && v + g - f < UPAGES ==> g in own && own[g] == Held
  }

  /** What deallocuvm leaves of an entry. */
  function Cleared(e: Pte, tracked: bool): Pte {
    if e.present || (tracked && e.paged) then EMPTY else e
  }

  /** The frames of pages lo to hi are free now, and no other frame changed hands. */
  ghost predicate Released(own: map<nat, Owner>, own': map<nat, Owner>, lo: nat, hi: nat) {
    && own.Keys == own'.Keys
    && (forall f {:trigger own'[f]} :: f in own ==>
          own'[f] == if own[f].PageOf? && lo <= own[f].v < hi then Free else own[f])
  }

  lemma ReleaseOne(dir: seq<nat>, tables: map<nat, seq<Pte>>, free: seq<nat>, own: map<nat, Owner>, pgdir: nat, v: nat)
    requires Owned(dir, tables, free, own, pgdir) && v < UPAGES && Lookup(dir, tables, v).present
    ensures Released(own, own[Lookup(dir, tables, v).frame := Held][Lookup(dir, tables, v).frame := Free], v, v + 1)
  {
    assert EntryAt(dir, tables, own, v);
    forall f | f in own && own[f] == PageOf(v) ensures f == Lookup(dir, tables, v).frame {
      assert FrameAt(dir, tables, free, own, pgdir, f);
    }
  }

  /** Where no page is present no frame is released. */
  lemma ReleaseNone(dir: seq<nat>, tables: map<nat, seq<Pte>>, free: seq<nat>, own: map<nat, Owner>, pgdir: nat,
                    lo: nat, hi: nat)
    requires Owned(dir, tables, free, own, pgdir) && hi <= UPAGES
    requires forall v: nat :: lo <= v < hi ==> !Lookup(dir, tables, v).present
    ensures Released(own, own, lo, hi)
  {
    forall f | f in own ensures !(own[f].PageOf? && lo <= own[f].v < hi) {
      assert FrameAt(dir, tables, free, own, pgdir, f);
    }
  }

  /** Entries lo to hi are what deallocuvm leaves, the others as they were. */
  ghost predicate Removed(dir: seq<nat>, tables: map<nat, seq<Pte>>, tables': map<nat, seq<Pte>>, lo: nat, hi: nat,
                          tracked: bool) {
    && Shape(dir, tables) && Shape(dir, tables')
    && (forall u: nat {:trigger Lookup(dir, tables', u)} :: u < NPAGES ==>
          Lookup(dir, tables', u) == if lo <= u < hi then Cleared(Lookup(dir, tables, u), tracked) else Lookup(dir, tables, u))
  }

  /** Pages lo to hi are present now, the others as they were. */
  ghost predicate Allotted(dir: seq<nat>, tables: map<nat, seq<Pte>>, dir': seq<nat>, tables': map<nat, seq<Pte>>,
                           lo: nat, hi: nat) {
    && Shape(dir, tables) && Shape(dir', tables')
    && (forall u: nat {:trigger Lookup(dir', tables', u)} :: u < NPAGES ==>
          if lo <= u < hi then Lookup(dir', tables', u).present else Lookup(dir', tables', u) == Lookup(dir, tables, u))
  }

  /** Where directory entry d has no table there is nothing to skip over. */
  lemma Skip(dir: seq<nat>, tables: map<nat, seq<Pte>>, d: nat, lo: nat, hi: nat)
    requires Shape(dir, tables) && d < NENTRIES && dir[d] == 0 && d * NENTRIES <= lo && hi <= (d + 1) * NENTRIES
    ensures forall v: nat :: lo <= v < hi ==> Lookup(dir, tables, v) == EMPTY
  {
    forall v: nat | lo <= v < hi ensures Lookup(dir, tables, v) == EMPTY { assert Pdx(v) == d; }
  }

  /** The same frames are held by others. */
  ghost predicate SameHeld(own: map<nat, Owner>, own': map<nat, Owner>) {
    && own.Keys == own'.Keys
    && (forall f {:trigger own'[f]} :: f in own ==> (own[f] == Held <==> own'[f] == Held))
  }

  lemma DirectoryDropped(dir: seq<nat>, tables: map<nat, seq<Pte>>, free: seq<nat>, own: map<nat, Owner>, pgdir: nat)
    requires Owned(dir, tables, free, own, pgdir) && pgdir in own && own[pgdir] == Directory
    ensures Owned(dir, tables, free, own[pgdir := Held], pgdir)
  {
    var own' := own[pgdir := Held];
    forall g: nat ensures FrameAt(dir, tables, free, own', pgdir, g) { assert FrameAt(dir, tables, free, own, pgdir, g); }
    forall d: nat | d < |dir| ensures DirAt(dir, own', d) { assert DirAt(dir, own, d); }
    forall v: nat | v < UPAGES ensures EntryAt(dir, tables, own', v) { assert EntryAt(dir, tables, own, v); }
  }

  /** With no table, no page present and the directory freed, every frame is free or someone else's. */
  lemma AllFree(dir: seq<nat>, tables: map<nat, seq<Pte>>, free: seq<nat>, own: map<nat, Owner>, pgdir: nat)
    requires Owned(dir, tables, free, own, pgdir) && NonePresent(dir, tables) && pgdir in own && own[pgdir] == Free
    requires forall d :: 0 <= d < |dir| ==> dir[d] == 0
    ensures forall f {:trigger own[f]} :: f in own ==> multiset(free)[f] == if own[f] == Held then 0 else 1
  {
    forall f | f in own ensures multiset(free)[f] == if own[f] == Held then 0 else 1 {
      assert FrameAt(dir, tables, free, own, pgdir, f);
    }
  }

  datatype MapResult = Done | Failed | Remap

  ghost predicate InRange(own: map<nat, Owner>, first: nat, top: nat) {
    forall f {:trigger f in own} :: f in own ==> first <= f < top
  }

  /** Before there is an address space: frames are free, or held by someone. */
  ghost predicate SharedAt(free: seq<nat>, own: map<nat, Owner>, f: nat) {
    if f !in own then f !in free
    else if own[f] == Free then multiset(free)[f] == 1
    else own[f] == Held && f !in free
  }

  ghost predicate Shared(free: seq<nat>, own: map<nat, Owner>) {
    forall f: nat :: SharedAt(free, own, f)
  }

  lemma SharedTake(free: seq<nat>, own: map<nat, Owner>, f: nat)
    requires Shared([f] + free, own)
    ensures f in own && own[f] == Free && f !in free
    ensures forall g: nat {:trigger SharedAt(free, own, g)} :: g != f ==> SharedAt(free, own, g)
  {
    assert multiset([f] + free) == multiset{f} + multiset(free);
    assert f in [f] + free && SharedAt([f] + free, own, f);
    forall g: nat | g != f ensures SharedAt(free, own, g) { assert SharedAt([f] + free, own, g); }
  }

  /** An empty directory in frame f. */
  lemma Start(dir: seq<nat>, free: seq<nat>, own: map<nat, Owner>, f: nat)
    requires Shared([f] + free, own) && 0 !in own && |dir| == NENTRIES && forall d :: 0 <= d < |dir| ==> dir[d] == 0
    ensures f in own && own[f] == Free && Owned(dir, map[], free, own[f := Directory], f)
  {
    SharedTake(free, own, f);
    var own' := own[f := Directory];
    forall g: nat ensures FrameAt(dir, map[], free, own', f, g) { assert g != f ==> SharedAt(free, own, g); }
  }

  class AddressSpace {
    const kmem: Kmem
    /** The directory's frame, its entries, and the contents of the frames that are tables. */
    const pgdir: nat
    var dir: seq<nat>
    var tables: map<nat, seq<Pte>>
    ghost var own: map<nat, Owner>

    ghost predicate Valid()
      reads this, kmem
    {
      && kmem.Valid() && Owned(dir, tables, kmem.list, own, pgdir)
      && InRange(own, kmem.first, kmem.top) && pgdir in own && own[pgdir] == Directory
    }

    /** setupkvm's first step: a directory with no entries, in a frame from kalloc. */
    constructor (kmem: Kmem, ghost before: map<nat, Owner>)
      requires kmem.Valid() && kmem.list != [] && Shared(kmem.list, before) && InRange(before, kmem.first, kmem.top)
      modifies kmem
      ensures this.kmem == kmem && Valid() && SameHeld(before, own)
      ensures forall v: nat :: v < NPAGES ==> Lookup(dir, tables, v) == EMPTY
    {
      var f := kmem.Kalloc();
      var none := seq(NENTRIES, i => 0);
      Start(none, kmem.list, before, f);
      this.kmem, pgdir, dir, tables := kmem, f, none, map[];
      own := before[f := Directory];
    }

    /** The frame of the table for page v, made if alloc says so; 0 if there is none. */
    method WalkPgdir(v: nat, alloc: bool) returns (t: nat)
      requires Valid() && v < NPAGES
      modifies this`dir, this`tables, this`own, kmem
      ensures Valid() && Alike(old(dir), old(tables), dir, tables) && SameHeld(old(own), own)
      ensures t == dir[Pdx(v)] && (t != 0 <==> old(dir)[Pdx(v)] != 0 || (alloc && old(kmem.list) != []))
      ensures old(dir)[Pdx(v)] != 0 || t == 0 ==>
                dir == old(dir) && tables == old(tables) && own == old(own) && kmem.list == old(kmem.list)
      ensures |kmem.list| + 1 >= |old(kmem.list)|
    {
      t := dir[Pdx(v)];
      if t == 0 && alloc {
        t := kmem.Kalloc();
        if t != 0 {
          var blank := seq(NENTRIES, i => EMPTY);
          Taken(dir, tables, kmem.list, own, pgdir, t);
          own := own[t := Held];
          TableNew(dir, tables, own, Pdx(v), t, blank);
          TableAdded(dir, tables, kmem.list, own, pgdir, Pdx(v), t, blank);
          dir, tables, own := dir[Pdx(v) := t], tables[t := blank], own[t := TableOf(Pdx(v))];
        }
      }
    }

    /** *pte = e, through the table that walkpgdir found. */
    method SetPte(v: nat, t: nat, e: Pte)
      requires Shape(dir, tables) && Dirs(dir, own) && v < NPAGES && t == dir[Pdx(v)] != 0
      modifies this`tables
      ensures Changed(dir, old(tables), dir, tables, v, e)
    {
      EntrySet(dir, tables, own, v, e);
      tables := tables[t := tables[t][Ptx(v) := e]];
    }

    /** One turn of mappages. */
    method MapOne(v: nat, f: nat) returns (r: MapResult)
      requires Valid() && v < NPAGES && (v < UPAGES ==> f in own && own[f] == Held)
      modifies this`dir, this`tables, this`own, kmem
      ensures Valid() && Retains(old(own), own, if v < UPAGES && r == Done then {f} else {})
      ensures r == Done ==> Changed(old(dir), old(tables), dir, tables, v, Pte(true, false, f))
      ensures r == Done ==> !Lookup(old(dir), old(tables), v).present
      ensures r == Failed ==> Alike(old(dir), old(tables), dir, tables) && old(dir)[Pdx(v)] == 0
      ensures r == Failed ==> old(kmem.list) == kmem.list == []
      ensures r == Remap ==> Alike(old(dir), old(tables), dir, tables) && Lookup(dir, tables, v).present
      ensures |kmem.list| + 1 >= |old(kmem.list)| && (old(dir)[Pdx(v)] != 0 ==> kmem.list == old(kmem.list))
    {
      var t := WalkPgdir(v, true);
      if t == 0 { return Failed; }
      assert TableAt(dir, tables, Pdx(v));
      if tables[t][Ptx(v)].present { return Remap; }
      ghost var was := tables;
      SetPte(v, t, Pte(true, false, f));
      if v < UPAGES {
        Mapped(dir, was, kmem.list, own, pgdir, v, f, tables);
        own := own[f := PageOf(v)];
      } else {
        Rewritten(dir, was, kmem.list, own, pgdir, v, Pte(true, false, f), tables);
      }
      r := Done;
    }

    /**
     * mappages, on the pages from v on: on success all n are mapped to consecutive frames and
     * no other entry changes; it fails only for want of a table, and panics only at a page
     * already present.
     */
    method MapPages(v: nat, n: nat, f: nat) returns (r: MapResult, ghost k: nat)
      requires Valid() && 0 < n && v + n <= NPAGES
      requires HeldRange(own, v, f, 0, n)
      modifies this`dir, this`tables, this`own, kmem
      ensures Valid() && MappedRange(old(dir), old(tables), dir, tables, v, k, f)
      ensures k <= n && (r == Done <==> k == n) && RetainsRange(old(own), own, v, f, k)
      ensures r == Failed ==> kmem.list == []
      ensures r == Remap ==> Lookup(old(dir), old(tables), v + k).present
    {
      k := 0;
      var a, pa, last := v, f, v + n - 1;
      while true
        invariant k < n && a == v + k && pa == f + k
        invariant Valid() && MappedRange(old(dir), old(tables), dir, tables, v, k, f)
        invariant HeldRange(own, v, f, k, n) && RetainsRange(old(own), own, v, f, k)
        decreases n - k
      {
        assert a < UPAGES ==> pa in own;
        ghost var mid := own;
        r := MapOne(a, pa);
        if r != Done { return; }
        RetainsNext(old(own), mid, own, v, f, k);
        k := k + 1;
        if a == last { return; }
        a, pa := a + 1, pa + 1;
      }
    }

    /** deallocuvm at a page that has a table: a present page's frame is freed, a stale address is not. */
    method RemoveOne(v: nat, t: nat, tracked: bool)
      requires Valid() && v < UPAGES && t == dir[Pdx(v)] != 0
      modifies this`tables, this`own, kmem
      ensures Valid() && Changed(dir, old(tables), dir, tables, v, Cleared(Lookup(dir, old(tables), v), tracked))
      ensures Released(old(own), own, v, v + 1)
    {
      assert TableAt(dir, tables, Pdx(v)) && EntryAt(dir, tables, own, v);
      ghost var was := tables;
      var e := tables[t][Ptx(v)];
      if e.present {
        SetPte(v, t, EMPTY);
        Unmapped(dir, was, kmem.list, own, pgdir, v, EMPTY, tables);
        ReleaseOne(dir, was, kmem.list, own, pgdir, v);
        own := own[e.frame := Held];
        Given(dir, tables, kmem.list, own, pgdir, e.frame);
        var ok := kmem.Kfree(e.frame);
        own := own[e.frame := Free];
      } else {
        ReleaseNone(dir, tables, kmem.list, own, pgdir, v, v + 1);
        SetPte(v, t, Cleared(e, tracked));
        Rewritten(dir, was, kmem.list, own, pgdir, v, Cleared(e, tracked), tables);
      }
    }

    /**
     * deallocuvm, which skips to the next directory entry where there is no table: nothing
     * between newsz and oldsz stays present, all frames there are freed, and nothing else changes.
     */
    method Deallocuvm(oldsz: nat, newsz: nat, tracked: bool) returns (r: nat)
      requires Valid() && oldsz <= UPAGES * PGSIZE
      modifies this`dir, this`tables, this`own, kmem
      ensures Valid() && dir == old(dir) && r == if newsz >= oldsz then oldsz else newsz
      ensures Removed(dir, old(tables), tables, Pages(newsz), Pages(oldsz), tracked)
      ensures Released(old(own), own, Pages(newsz), Pages(oldsz))
    {
      if newsz >= oldsz { return oldsz; }
      var a, hi := Pages(newsz), Pages(oldsz);
      ghost var lo := a;
      while a < hi
        invariant lo <= a && Valid() && dir == old(dir) && Removed(dir, old(tables), tables, lo, Min(a, hi), tracked)
        invariant Released(old(own), own, lo, Min(a, hi))
      {
        var t := WalkPgdir(a, false);
        if t == 0 {
          ghost var next := Min((Pdx(a) + 1) * NENTRIES, hi);
          Skip(dir, tables, Pdx(a), a, next);
          ReleaseNone(dir, tables, kmem.list, own, pgdir, a, next);
          a := (Pdx(a) + 1) * NENTRIES - 1;
        } else {
          RemoveOne(a, t, tracked);
        }
        a := a + 1;
      }
      r := newsz;
    }

    /**
     * allocuvm: the pages from oldsz to newsz get a frame each.  If frames or tables run out
     * every entry is as it was and every frame taken for a page is back on the free list.
     */
    method Allocuvm(oldsz: nat, newsz: nat) returns (r: nat)
      requires Valid() && EmptyFrom(dir, tables, Pages(oldsz))
      modifies this`dir, this`tables, this`own, kmem
      ensures Valid() && SameHeld(old(own), own)
      ensures newsz >= UPAGES * PGSIZE ==> r == 0 && Alike(old(dir), old(tables), dir, tables)
      ensures newsz < UPAGES * PGSIZE && newsz < oldsz ==> r == oldsz && Alike(old(dir), old(tables), dir, tables)
      ensures oldsz <= newsz < UPAGES * PGSIZE ==>
                || (r == newsz && Allotted(old(dir), old(tables), dir, tables, Pages(oldsz), Pages(newsz)))
                || (r == 0 && |old(kmem.list)| < 2 * (Pages(newsz) - Pages(oldsz)) && Alike(old(dir), old(tables), dir, tables))
    {
      if newsz >= UPAGES * PGSIZE { return 0; }
      if newsz < oldsz { return oldsz; }
      var a, hi := Pages(oldsz), Pages(newsz);
      ghost var lo := a;
      while a < hi
        invariant lo <= a <= hi && Valid() && SameHeld(old(own), own)
        invariant Allotted(old(dir), old(tables), dir, tables, lo, a) && |kmem.list| + 2 * (a - lo) >= |old(kmem.list)|
      {
        var ok := AllocOne(a);
        if !ok {
          r := Deallocuvm(newsz, oldsz, false);
          return 0;
        }
        a := a + 1;
      }
      r := newsz;
    }

    /** One turn of allocuvm: kalloc, and mappages of the frame. */
    method AllocOne(v: nat) returns (ok: bool)
      requires Valid() && v < UPAGES && !Lookup(dir, tables, v).present
      modifies this`dir, this`tables, this`own, kmem
      ensures Valid() && SameHeld(old(own), own)
      ensures ok ==> exists f: nat :: Changed(old(dir), old(tables), dir, tables, v, Pte(true, false, f))
      ensures if ok then |kmem.list| + 2 >= |old(kmem.list)| else |old(kmem.list)| <= 1 && Alike(old(dir), old(tables), dir, tables)
    {
      var f := kmem.Kalloc();
      if f == 0 { return false; }
      Taken(dir, tables, kmem.list, own, pgdir, f);
      own := own[f := Held];
      var r := MapOne(v, f);
      if r != Done {
        Given(dir, tables, kmem.list, own, pgdir, f);
        var freed := kmem.Kfree(f);
        own := own[f := Free];
        return false;
      }
      ok := true;
    }

    /** The page table side of swapToFile: page v's frame is freed, its address left in the entry. */
    method SwapOut(v: nat)
      requires Valid() && v < UPAGES && Lookup(dir, tables, v).present
      modifies this`dir, this`tables, this`own, kmem
      ensures Valid()
      ensures Changed(old(dir), old(tables), dir, tables, v, Pte(false, true, Lookup(old(dir), old(tables), v).frame))
      ensures kmem.list == [Lookup(old(dir), old(tables), v).frame] + old(kmem.list) && SameHeld(old(own), own)
    {
      var t := WalkPgdir(v, false);
      assert TableAt(dir, tables, Pdx(v)) && EntryAt(dir, tables, own, v);
      var f := tables[t][Ptx(v)].frame;
      ghost var was := tables;
      SetPte(v, t, Pte(false, true, f));
      Unmapped(dir, was, kmem.list, own, pgdir, v, Pte(false, true, f), tables);
      own := own[f := Held];
      Given(dir, tables, kmem.list, own, pgdir, f);
      var ok := kmem.Kfree(f);
      own := own[f := Free];
    }

    /** The page table side of the page-fault handler; its mappages finds the table and cannot fail. */
    method SwapIn(v: nat) returns (ok: bool)
      requires Valid() && v < UPAGES && Lookup(dir, tables, v).paged
      modifies this`dir, this`tables, this`own, kmem
      ensures Valid() && (ok <==> old(kmem.list) != []) && SameHeld(old(own), own)
      ensures if ok then Changed(old(dir), old(tables), dir, tables, v, Pte(true, false, old(kmem.list)[0])) && old(kmem.list) == [old(kmem.list)[0]] + kmem.list
              else Alike(old(dir), old(tables), dir, tables)
    {
      assert EntryAt(dir, tables, own, v);
      var f := kmem.Kalloc();
      if f == 0 { return false; }
      Taken(dir, tables, kmem.list, own, pgdir, f);
      own := own[f := Held];
      var r := MapOne(v, f);
      ok := true;
    }

    /**
     * freevm: the user's frames, the tables and the directory all go back; every frame not held
     * by someone else is on the free list, once.
     */
    method Freevm()
      requires Valid()
      modifies this`dir, this`tables, this`own, kmem
      ensures kmem.Valid() && own.Keys == old(own).Keys
      ensures forall f {:trigger old(own)[f]} :: f in old(own) ==>
                multiset(kmem.list)[f] == if old(own)[f] == Held then 0 else 1
    {
      var n := Deallocuvm(UPAGES * PGSIZE, 0, false);
      ghost var live := FreeTables();
      DirectoryDropped(live, tables, kmem.list, own, pgdir);
      Given(live, tables, kmem.list, own[pgdir := Held], pgdir, pgdir);
      var ok := kmem.Kfree(pgdir);
      own := own[pgdir := Held][pgdir := Free];
      AllFree(live, tables, kmem.list, own, pgdir);
    }

    /** freevm's loop: every table is freed. */
    method FreeTables() returns (ghost live: seq<nat>)
      requires Valid() && NonePresent(dir, tables)
      modifies this`own, kmem
      ensures kmem.Valid() && Owned(live, tables, kmem.list, own, pgdir) && NonePresent(live, tables)
      ensures pgdir in own && own[pgdir] == Directory && SameHeld(old(own), own)
      ensures forall d :: 0 <= d < |live| ==> live[d] == 0
    {
      live := dir;
      for i := 0 to NENTRIES
        invariant kmem.Valid() && Owned(live, tables, kmem.list, own, pgdir) && NonePresent(live, tables)
        invariant InRange(own, kmem.first, kmem.top) && pgdir in own && own[pgdir] == Directory && SameHeld(old(own), own)
        invariant forall d :: 0 <= d < NENTRIES ==> live[d] == if d < i then 0 else dir[d]
      {
        if dir[i] != 0 {
          TableDropped(live, tables, kmem.list, own, pgdir, i);
          live, own := live[i := 0], own[dir[i] := Held];
          Given(live, tables, kmem.list, own, pgdir, dir[i]);
          var ok := kmem.Kfree(dir[i]);
          own := own[dir[i] := Free];
        }
      }
    }

    /** Page v's entry. */
    method ReadPte(v: nat) returns (e: Pte)
      requires Valid() && v < NPAGES
      ensures e == Lookup(dir, tables, v)
    {
      assert TableAt(dir, tables, Pdx(v));
      var t := dir[Pdx(v)];
      e := if t == 0 then EMPTY else tables[t][Ptx(v)];
    }

    /**
     * A whole life of an address space: any growth, shrinking, swapping out and swapping in, then
     * freevm.  No frame is lost, shared or freed twice: at the end exactly the frames that others
     * held at the start are not on the free list, and the others are on it once.
     */
    method Life(steps: seq<VmStep>) returns (oks: seq<bool>)
      requires Valid() && EmptyFrom(dir, tables, 0)
      modifies this`dir, this`tables, this`own, kmem
      ensures |oks| == |steps|
      ensures kmem.Valid() && own.Keys == old(own).Keys
      ensures forall f {:trigger old(own)[f]} :: f in old(own) ==>
                multiset(kmem.list)[f] == if old(own)[f] == Held then 0 else 1
    {
      var sz;
      sz, oks := Steps(steps);
      Freevm();
    }

    /** Its steps: which pages are in memory and which in the file is what the steps that were granted make of it. */
    method Steps(steps: seq<VmStep>) returns (sz: nat, oks: seq<bool>)
      requires Valid() && EmptyFrom(dir, tables, 0)
      modifies this`dir, this`tables, this`own, kmem
      ensures Valid() && SameHeld(old(own), own) && |oks| == |steps|
      ensures sz == VmAfter(steps, oks, |steps|).sz && Shows(dir, tables, VmAfter(steps, oks, |steps|).kinds)
    {
      sz, oks := 0, [];
      ghost var vm := VmAfter(steps, oks, 0);
      for k := 0 to |steps|
        invariant Valid() && SameHeld(old(own), own) && EmptyFrom(dir, tables, Pages(sz)) && sz <= UPAGES * PGSIZE
        invariant |oks| == k && vm == VmAfter(steps, oks, k) && sz == vm.sz && Shows(dir, tables, vm.kinds)
      {
        var ok;
        sz, ok := Live(sz, steps[k], vm);
        VmPrefix(steps, oks, ok, k);
        oks, vm := oks + [ok], VmNext(vm, steps[k], ok);
      }
    }

    /**
     * One step of it, for a process of size sz; it is refused only for want of frames, or for a growth that
     * is none or is past the user's half.
     */
    method Live(sz: nat, step: VmStep, ghost vm: Vm) returns (sz': nat, ok: bool)
      requires Valid() && EmptyFrom(dir, tables, Pages(sz)) && sz <= UPAGES * PGSIZE
      requires vm.sz == sz && Shows(dir, tables, vm.kinds)
      modifies this`dir, this`tables, this`own, kmem
      ensures Valid() && SameHeld(old(own), own) && EmptyFrom(dir, tables, Pages(sz')) && sz' <= UPAGES * PGSIZE
      ensures sz' == VmNext(vm, step, ok).sz && Shows(dir, tables, VmNext(vm, step, ok).kinds)
      ensures !ok ==> MayRefuse(vm, step, |old(kmem.list)|)
    {
      sz', ok := sz, true;
      match step {
        case Grow(newsz) => sz', ok := LiveGrow(sz, newsz, vm);
        case Shrink(newsz) => if newsz < sz { sz' := LiveShrink(sz, newsz, vm); }
        case Out(v) => if v < UPAGES { LiveOut(v, vm); }
        case In(v) => if v < UPAGES { ok := LiveIn(v, vm); }
      }
    }

    method LiveGrow(sz: nat, newsz: nat, ghost vm: Vm) returns (sz': nat, ok: bool)
      requires Valid() && EmptyFrom(dir, tables, Pages(sz)) && sz <= UPAGES * PGSIZE
      requires vm.sz == sz && Shows(dir, tables, vm.kinds)
      modifies this`dir, this`tables, this`own, kmem
      ensures Valid() && SameHeld(old(own), own) && EmptyFrom(dir, tables, Pages(sz')) && sz' <= UPAGES * PGSIZE
      ensures sz' == VmNext(vm, Grow(newsz), ok).sz && Shows(dir, tables, VmNext(vm, Grow(newsz), ok).kinds)
      ensures !ok ==> MayRefuse(vm, Grow(newsz), |old(kmem.list)|)
    {
      var r := Allocuvm(sz, newsz);
      ok := r == newsz && sz <= newsz < UPAGES * PGSIZE;
      sz' := if r != 0 then r else sz;
      if ok {
        ShowsAllotted(old(dir), old(tables), dir, tables, vm, newsz);
      } else {
        ShowsAlike(old(dir), old(tables), dir, tables, vm.kinds);
      }
    }

    method LiveShrink(sz: nat, newsz: nat, ghost vm: Vm) returns (sz': nat)
      requires Valid() && EmptyFrom(dir, tables, Pages(sz)) && newsz < sz <= UPAGES * PGSIZE
      requires vm.sz == sz && Shows(dir, tables, vm.kinds)
      modifies this`dir, this`tables, this`own, kmem
      ensures Valid() && SameHeld(old(own), own) && EmptyFrom(dir, tables, Pages(sz')) && sz' == newsz
      ensures Shows(dir, tables, VmNext(vm, Shrink(newsz), true).kinds)
    {
      ShrunkEmpty(dir, tables, own, kmem.list, pgdir, Pages(newsz), Pages(sz));
      sz' := Deallocuvm(sz, newsz, true);
      ShowsRemoved(dir, old(tables), tables, vm, newsz);
    }

    method LiveOut(v: nat, ghost vm: Vm)
      requires Valid() && EmptyFrom(dir, tables, Pages(vm.sz)) && v < UPAGES && Shows(dir, tables, vm.kinds)
      modifies this`dir, this`tables, this`own, kmem
      ensures Valid() && SameHeld(old(own), own) && EmptyFrom(dir, tables, Pages(vm.sz))
      ensures Shows(dir, tables, VmNext(vm, Out(v), true).kinds)
    {
      var e := ReadPte(v);
      if e.present {
        SwapOut(v);
        ShowsChanged(old(dir), old(tables), dir, tables, vm.kinds, v, Pte(false, true, e.frame));
      }
    }

    method LiveIn(v: nat, ghost vm: Vm) returns (ok: bool)
      requires Valid() && EmptyFrom(dir, tables, Pages(vm.sz)) && v < UPAGES && Shows(dir, tables, vm.kinds)
      modifies this`dir, this`tables, this`own, kmem
      ensures Valid() && SameHeld(old(own), own) && EmptyFrom(dir, tables, Pages(vm.sz))
      ensures Shows(dir, tables, VmNext(vm, In(v), ok).kinds)
      ensures !ok ==> old(kmem.list) == []
    {
      var e := ReadPte(v);
      ok := true;
      if e.paged && !e.present {
        ok := SwapIn(v);
        if ok { ShowsChanged(old(dir), old(tables), dir, tables, vm.kinds, v, Lookup(dir, tables, v)); }
      }
    }
  }

  datatype VmStep = Grow(newsz: nat) | Shrink(newsz: nat) | Out(v: nat) | In(v: nat)

  // ---- What the steps make of the user's pages ---------------------------------------------

  datatype Kind = Absent | InMemory | InFile

  /** A process of size sz, and where each user page is. */
  datatype Vm = Vm(sz: nat, kinds: seq<Kind>)

  ghost function KindOf(e: Pte): Kind {
    if e.present then InMemory else if e.paged then InFile else Absent
  }

  ghost predicate Shows(dir: seq<nat>, tables: map<nat, seq<Pte>>, kinds: seq<Kind>) {
    && Shape(dir, tables) && |kinds| == UPAGES
    && forall u: nat {:trigger Lookup(dir, tables, u)} :: u < UPAGES ==> kinds[u] == KindOf(Lookup(dir, tables, u))
  }

  ghost function SetKinds(kinds: seq<Kind>, lo: nat, hi: nat, kind: Kind): (r: seq<Kind>)
    ensures |r| == |kinds|
  {
    seq(|kinds|, u requires 0 <= u < |kinds| => if lo <= u < hi then kind else kinds[u])
  }

  /** The step, if it was granted. */
  ghost function VmNext(vm: Vm, step: VmStep, ok: bool): (r: Vm)
    ensures |r.kinds| == |vm.kinds|
  {
    match step
    case Grow(newsz) =>
      if ok && vm.sz <= newsz then Vm(newsz, SetKinds(vm.kinds, Pages(vm.sz), Pages(newsz), InMemory)) else vm
    case Shrink(newsz) => if newsz < vm.sz then Vm(newsz, SetKinds(vm.kinds, Pages(newsz), Pages(vm.sz), Absent)) else vm
    case Out(v) => if v < |vm.kinds| && vm.kinds[v] == InMemory then vm.(kinds := vm.kinds[v := InFile]) else vm
    case In(v) => if ok && v < |vm.kinds| && vm.kinds[v] == InFile then vm.(kinds := vm.kinds[v := InMemory]) else vm
  }

  /** With free frames left, the step can be refused. */
  ghost predicate MayRefuse(vm: Vm, step: VmStep, free: nat) {
    match step
    case Grow(newsz) => newsz < vm.sz || newsz >= UPAGES * PGSIZE || free < 2 * (Pages(newsz) - Pages(vm.sz))
    case In(_) => free == 0
    case _ => false
  }

  ghost function VmAfter(steps: seq<VmStep>, oks: seq<bool>, k: nat): (vm: Vm)
    requires k <= |steps| && k <= |oks|
    ensures |vm.kinds| == UPAGES
    decreases k
  {
    if k == 0 then Vm(0, seq(UPAGES, u => Absent)) else VmNext(VmAfter(steps, oks, k - 1), steps[k - 1], oks[k - 1])
  }

  lemma {:induction false} VmPrefix(steps: seq<VmStep>, oks: seq<bool>, ok: bool, k: nat)
    requires k <= |steps| && k <= |oks|
    ensures VmAfter(steps, oks + [ok], k) == VmAfter(steps, oks, k)
    decreases k
  {
    if k > 0 { VmPrefix(steps, oks, ok, k - 1); }
  }

  lemma ShowsAlike(dir: seq<nat>, tables: map<nat, seq<Pte>>, dir': seq<nat>, tables': map<nat, seq<Pte>>, kinds: seq<Kind>)
    requires Shows(dir, tables, kinds) && Alike(dir, tables, dir', tables')
    ensures Shows(dir', tables', kinds)
  {
    forall u: nat | u < UPAGES ensures kinds[u] == KindOf(Lookup(dir', tables', u)) {
      assert Lookup(dir', tables', u) == Lookup(dir, tables, u);
    }
  }

  lemma ShowsAllotted(dir: seq<nat>, tables: map<nat, seq<Pte>>, dir': seq<nat>, tables': map<nat, seq<Pte>>, vm: Vm,
                      newsz: nat)
    requires Shows(dir, tables, vm.kinds) && vm.sz <= newsz
    requires Allotted(dir, tables, dir', tables', Pages(vm.sz), Pages(newsz))
    ensures Shows(dir', tables', VmNext(vm, Grow(newsz), true).kinds)
  {
    forall u: nat | u < UPAGES ensures VmNext(vm, Grow(newsz), true).kinds[u] == KindOf(Lookup(dir', tables', u)) {
      assert Lookup(dir, tables, u) == Lookup(dir, tables, u);
    }
  }

  lemma ShowsRemoved(dir: seq<nat>, tables: map<nat, seq<Pte>>, tables': map<nat, seq<Pte>>, vm: Vm, newsz: nat)
    requires Shows(dir, tables, vm.kinds) && newsz < vm.sz
    requires Removed(dir, tables, tables', Pages(newsz), Pages(vm.sz), true)
    ensures Shows(dir, tables', VmNext(vm, Shrink(newsz), true).kinds)
  {
    forall u: nat | u < UPAGES ensures VmNext(vm, Shrink(newsz), true).kinds[u] == KindOf(Lookup(dir, tables', u)) {
      assert vm.kinds[u] == KindOf(Lookup(dir, tables, u));
    }
  }

  lemma ShowsChanged(dir: seq<nat>, tables: map<nat, seq<Pte>>, dir': seq<nat>, tables': map<nat, seq<Pte>>,
                     kinds: seq<Kind>,
                     v: nat, e: Pte)
    requires Shows(dir, tables, kinds) && Changed(dir, tables, dir', tables', v, e) && v < UPAGES
    ensures Shows(dir', tables', kinds[v := KindOf(e)])
  {
    forall u: nat | u < UPAGES ensures kinds[v := KindOf(e)][u] == KindOf(Lookup(dir', tables', u)) {
      assert kinds[u] == KindOf(Lookup(dir, tables, u));
    }
  }

  /** No user page from number n on has an entry. */
  ghost predicate EmptyFrom(dir: seq<nat>, tables: map<nat, seq<Pte>>, n: nat)
    requires Shape(dir, tables)
  {
    forall v: nat :: n <= v < UPAGES ==> Lookup(dir, tables, v) == EMPTY
  }

  /** An entry that deallocuvm leaves in a tracked process, between lo and hi, is empty. */
  lemma ShrunkEmpty(dir: seq<nat>, tables: map<nat, seq<Pte>>, own: map<nat, Owner>, free: seq<nat>, pgdir: nat,
                    lo: nat, hi: nat)
    requires Owned(dir, tables, free, own, pgdir) && EmptyFrom(dir, tables, hi)
    ensures forall v: nat {:trigger Lookup(dir, tables, v)} :: lo <= v < UPAGES ==> Cleared(Lookup(dir, tables, v), true) == EMPTY
  {
    forall v: nat | lo <= v < UPAGES ensures Cleared(Lookup(dir, tables, v), true) == EMPTY {
      assert EntryAt(dir, tables, own, v);
    }
  }
}
