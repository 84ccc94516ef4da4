/** Where the frames are: every frame is reserved, a directory, a page table, a mapped page, held by
    something else, or free; and no frame is two of these. */
module Accounting {
  import opened Pmm
  import opened PageTables
  import opened Paging
  import opened Fork

  function MappedFrames(m: Layout): set<nat> { set s <- m.leaves :: m.leaves[s].frame }

  /** Frames in use only from outside the page tables. */
  function HeldOnly(x: Memory): set<nat> {
    set f: nat | f < MAX_FRAMES && x.held[f] > 0 && f !in x.m.dirs && f !in x.m.owner && f !in MappedFrames(x.m)
  }

  function FreeOf(x: Memory): set<nat> { FreeFrames(x.counts, x.reserved) }

  lemma Disjoint(x: Memory)
    requires Sound(x)
    ensures x.m.dirs !! x.m.owner.Keys !! MappedFrames(x.m) !! HeldOnly(x) !! FreeOf(x)
    ensures x.m.dirs !! x.reserved && x.m.owner.Keys !! x.reserved && MappedFrames(x.m) !! x.reserved && HeldOnly(x) !! x.reserved
    ensures forall f: nat :: f < MAX_FRAMES ==>
      f in x.reserved || f in x.m.dirs || f in x.m.owner || f in MappedFrames(x.m) || f in HeldOnly(x) || f in FreeOf(x)
    ensures x.m.dirs + x.m.owner.Keys + MappedFrames(x.m) <= FramesBelow(MAX_FRAMES)
  {
    FrameKinds(x);
    StructuresApart(x);
    hide Sound, Balanced, Unused;
  }

  lemma StructuresApart(x: Memory)
    requires Sound(x)
    ensures x.m.dirs !! x.m.owner.Keys !! MappedFrames(x.m)
    ensures x.m.dirs + x.m.owner.Keys + MappedFrames(x.m) <= FramesBelow(MAX_FRAMES)
  {
    hide KernelHalf, Agrees, Balanced, CopyOnWrite, Shows, Uncounted;
  }

  /** A frame is used by the layout, held from outside, free or reserved, as its count says. */
  lemma FrameKinds(x: Memory)
    requires Sound(x)
    ensures forall f: nat :: f < MAX_FRAMES ==>
      (f in x.m.dirs || f in x.m.owner || f in MappedFrames(x.m) <==> !Unused(x.m, f)) &&
      (f in FreeOf(x) || f in x.reserved ==> Unused(x.m, f) && x.held[f] == 0) &&
      (f in FreeOf(x) <==> x.counts[f] == 0 && f !in x.reserved) &&
      (Unused(x.m, f) ==> x.counts[f] == x.held[f])
  {
    hide KernelHalf, Agrees, CopyOnWrite, Shows;
    forall f: nat | f < MAX_FRAMES
      ensures f in x.m.dirs || f in x.m.owner || f in MappedFrames(x.m) <==> !Unused(x.m, f)
      ensures f in FreeOf(x) || f in x.reserved ==> Unused(x.m, f) && x.held[f] == 0
      ensures Unused(x.m, f) ==> x.counts[f] == x.held[f]
    {
      UseCounts(x.counts, x.held, x.m, f);
      if Unused(x.m, f) { UnusedCount(x.counts, x.held, x.m, f); }
    }
  }

  lemma UnusedCount(counts: Counts, held: Tally, m: Layout, f: nat)
    requires Balanced(counts, held, m) && f < MAX_FRAMES && Unused(m, f)
    ensures counts[f] == held[f]
  {
    assert LeafUses(m, f) == {};
  }

  lemma SumOfParts(a: set<nat>, b: set<nat>, c: set<nat>, d: set<nat>, e: set<nat>, r: set<nat>, all: set<nat>)
    requires a !! b !! c !! d !! e && a !! r && b !! r && c !! r && d !! r && e !! r
    requires forall f :: f in all <==> f in a || f in b || f in c || f in d || f in e || f in r
    ensures |all| == |a| + |b| + |c| + |d| + |e| + |r|
  {
    assert all == a + b + c + d + e + r;
  }

  /** Frame conservation: the six kinds of frame always add up to all there are. */
  lemma FramesAddUp(x: Memory)
    requires Sound(x) && x.reserved <= FramesBelow(MAX_FRAMES)
    ensures |x.reserved| + |x.m.dirs| + |x.m.tables| + |MappedFrames(x.m)| + |HeldOnly(x)| + |FreeOf(x)| == MAX_FRAMES
  {
    Disjoint(x);
    OneFramePerTable(x);
    ReservedNotFree(x);
    hide Sound, MappedFrames, FreeOf;
    CountFramesBelow(MAX_FRAMES);
    SumOfParts(x.m.dirs, x.m.owner.Keys, MappedFrames(x.m), HeldOnly(x), FreeOf(x), x.reserved, FramesBelow(MAX_FRAMES));
  }

  lemma ReservedNotFree(x: Memory)
    ensures FreeOf(x) !! x.reserved && FreeOf(x) <= FramesBelow(MAX_FRAMES)
  {
  }

  lemma OneFramePerTable(x: Memory)
    requires Sound(x)
    ensures |x.m.owner.Keys| == |x.m.tables|
  {
    hide KernelHalf, Agrees, Balanced, CopyOnWrite, Shows, Uncounted;
    var frames := TableFrames(x.m.tables.Keys, x.m.tables);
    TablesOneToOne(x.m.tables.Keys, x.m.tables, x.m.owner);
    forall f: nat
      ensures f in x.m.owner <==> f in frames
    {
      if f in x.m.owner { assert x.m.owner[f] in x.m.tables.Keys; }
    }
    assert x.m.owner.Keys == frames;
  }

  function TableFrames(slots: set<TableSlot>, tables: map<TableSlot, nat>): set<nat> {
    set k <- slots | k in tables :: tables[k]
  }

  lemma {:induction false} TablesOneToOne(slots: set<TableSlot>, tables: map<TableSlot, nat>, owner: map<nat, TableSlot>)
    requires slots <= tables.Keys
    requires forall k <- tables :: tables[k] in owner && owner[tables[k]] == k
    ensures |TableFrames(slots, tables)| == |slots|
  {
    if slots == {} {
      assert TableFrames(slots, tables) == {};
    } else {
      var k :| k in slots;
      TablesOneToOne(slots - {k}, tables, owner);
      assert TableFrames(slots, tables) == TableFrames(slots - {k}, tables) + {tables[k]};
      assert tables[k] !in TableFrames(slots - {k}, tables);
    }
  }

  /** What a reference count says between operations: a directory or a table is referenced once, and is nothing else;
      a mapped frame is referenced once for each page entry, over all live address spaces, that maps it. */
  lemma ExactCounts(x: Memory, f: nat)
    requires Sound(x) && Tidy(x) && f < MAX_FRAMES
    ensures f in x.m.dirs || f in x.m.owner ==> x.counts[f] == 1 && LeafUses(x.m, f) == {}
    ensures f in MappedFrames(x.m) ==> x.counts[f] == |LeafUses(x.m, f)| && NoStructure(x.m, f)
    ensures !(f in x.m.dirs && f in x.m.owner)
    ensures forall s <- x.m.leaves :: x.m.leaves[s].frame == f && x.m.leaves[s].flags & RW != 0 ==>
      LeafUses(x.m, f) == {s} && x.counts[f] == 1 && x.m.leaves[s].flags & COW == 0
  {
    TidyCounts(x);
    UsedOneWay(x, f);
    WritableAlone(x.m, f);
    hide Sound, Tidy;
  }

  lemma UsedOneWay(x: Memory, f: nat)
    requires Sound(x)
    ensures !(f in x.m.dirs && f in x.m.owner)
    ensures f in MappedFrames(x.m) <==> LeafUses(x.m, f) != {}
    ensures f in MappedFrames(x.m) ==> NoStructure(x.m, f)
  {
    hide KernelHalf, Agrees, Balanced, CopyOnWrite, Shows, Uncounted;
    forall s <- x.m.leaves | x.m.leaves[s].frame == f ensures s in LeafUses(x.m, f) { }
  }

  lemma WritableAlone(m: Layout, f: nat)
    requires CopyOnWrite(m)
    ensures forall s <- m.leaves :: m.leaves[s].frame == f && m.leaves[s].flags & RW != 0 ==>
      LeafUses(m, f) == {s} && |LeafUses(m, f)| == 1 && m.leaves[s].flags & COW == 0
  {
    FlagBits();
  }

  /** While no two pages share a frame, a page costs a frame. */
  lemma UnsharedCost(x: Memory)
    requires Sound(x) && x.reserved <= FramesBelow(MAX_FRAMES)
    requires forall s <- x.m.leaves, t <- x.m.leaves :: x.m.leaves[s].frame == x.m.leaves[t].frame ==> s == t
    ensures |FreeOf(x)| == MAX_FRAMES - |x.reserved| - |x.m.dirs| - |x.m.tables| - |x.m.leaves| - |HeldOnly(x)|
  {
    FramesAddUp(x);
    hide Sound, FreeOf, HeldOnly;
    InjectiveSize(x.m.leaves.Keys, x.m.leaves);
    assert MappedFrames(x.m) == FramesOf(x.m.leaves.Keys, x.m.leaves);
  }

  /** One address space by itself shares nothing. */
  lemma OneSpaceCost(x: Memory, d: nat)
    requires Sound(x) && x.reserved <= FramesBelow(MAX_FRAMES) && x.m.dirs == {d}
    ensures |FreeOf(x)| == MAX_FRAMES - |x.reserved| - 1 - |x.m.tables| - |x.m.leaves| - |HeldOnly(x)|
  {
    OneSpaceInjective(x, d);
    UnsharedCost(x);
  }

  lemma OneSpaceInjective(x: Memory, d: nat)
    requires Sound(x) && x.m.dirs == {d}
    ensures forall s <- x.m.leaves, t <- x.m.leaves :: x.m.leaves[s].frame == x.m.leaves[t].frame ==> s == t
  {
    hide Sound;
    forall s <- x.m.leaves, t <- x.m.leaves | x.m.leaves[s].frame == x.m.leaves[t].frame
      ensures s == t
    {
      if s.page != t.page { SameFrameSamePage(x, s, t); }
      TablesBelong(x, s);
      TablesBelong(x, t);
    }
  }

  lemma TablesBelong(x: Memory, s: Slot)
    requires Sound(x) && s in x.m.leaves
    ensures s.dir in x.m.dirs
  {
    hide KernelHalf, Agrees, Balanced, CopyOnWrite, Shows, Uncounted;
  }

  function FramesOf(slots: set<Slot>, leaves: map<Slot, Pte>): set<nat> {
    set s <- slots | s in leaves :: leaves[s].frame
  }

  lemma {:induction false} InjectiveSize(slots: set<Slot>, leaves: map<Slot, Pte>)
    requires slots <= leaves.Keys
    requires forall s <- leaves, t <- leaves :: leaves[s].frame == leaves[t].frame ==> s == t
    ensures |FramesOf(slots, leaves)| == |slots|
  {
    if slots == {} {
      assert FramesOf(slots, leaves) == {};
    } else {
      var s :| s in slots;
      InjectiveSize(slots - {s}, leaves);
      assert FramesOf(slots, leaves) == FramesOf(slots - {s}, leaves) + {leaves[s].frame};
      assert leaves[s].frame !in FramesOf(slots - {s}, leaves);
    }
  }

  /** The page tables and the outside references fix the counts, so undoing what was done to them
      gives every frame back. */
  lemma SameLayoutSameFree(x: Memory, y: Memory)
    requires Sound(x) && Sound(y) && x.reserved == y.reserved && x.held == y.held
    requires x.m.dirs == y.m.dirs && x.m.tables == y.m.tables && x.m.leaves.Keys == y.m.leaves.Keys
    requires forall s <- x.m.leaves :: x.m.leaves[s].frame == y.m.leaves[s].frame
    ensures x.counts == y.counts && FreeOf(x) == FreeOf(y)
  {
    hide KernelHalf, Agrees, CopyOnWrite, Shows, Uncounted;
    assert x.m.owner.Keys == y.m.owner.Keys by {
      forall f: nat
        ensures f in x.m.owner <==> f in y.m.owner
      {
      }
    }
    CountsDetermined(x.counts, y.counts, x.held, x.m, y.m);
  }
}
