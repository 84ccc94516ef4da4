/** Where copy-on-write stops being eager copying, and exactly when. */
module Limits {
  import opened Pmm
  import opened PageTables
  import opened Paging
  import opened Fork
  import opened UserAccess
  import opened Teardown
  import opened Accounting
  import opened Processes
  import opened Conservation

  // ---------------------------------------------------------------- full reference counts

  /** One more reference keeps the accounts straight exactly when the 8-bit count has room for it. */
  lemma CountRoom(counts: Counts, held: Tally, m: Layout, f: nat)
    requires Balanced(counts, held, m) && f < MAX_FRAMES
    ensures Balanced(counts[f := (counts[f] as int + 1) % 256], Hold(held, f), m) <==> counts[f] < 255
  {
    var counts' := counts[f := (counts[f] as int + 1) % 256];
    assert counts[f] == Uses(m, f) + held[f];
    if counts[f] == 255 {
      assert counts'[f] != Uses(m, f) + Hold(held, f)[f];
    }
  }

  // ---------------------------------------------------------------- fork undone

  /** A fork whose child is reaped gives every frame back, and no one's memory has changed. */
  method ForkAndReap(mem: AddressSpaces, p: nat)
    requires mem.Valid() && p in mem.m.dirs
    requires Forkable(mem.Now(), p) && |mem.pmm.Free()| > |TableIndexes(mem.m, p)|
    modifies mem, mem.ram, mem.pmm, mem.pmm.frameBitmap, mem.pmm.frameRefcount
    ensures mem.Valid() && mem.image == old(mem.image) && mem.pmm.Free() == old(mem.pmm.Free())
  {
    hide Sound, EagerFork, EagerDrop, ForkedLayout, Forkable;
    ghost var x := mem.Now();
    var c := CloneAddressSpace(mem, p);
    ghost var y := mem.Now();
    ReleaseAddressSpace(mem, c);
    ForkUndone(x, y, mem.Now(), p, c);
  }

  lemma ForkUndone(x: Memory, y: Memory, z: Memory, p: nat, c: nat)
    requires Sound(x) && Sound(z) && x.reserved == z.reserved && x.held == z.held
    requires c !in x.m.dirs && y.m.dirs == x.m.dirs + {c} && z.m.dirs == y.m.dirs - {c}
    requires ForkedLayout(x.m, y.m, p, c) && y.image == EagerFork(x.image, p, c) && z.image == EagerDrop(y.image, c)
    requires z.m.leaves == (map s <- y.m.leaves | s.dir != c :: y.m.leaves[s])
    requires z.m.tables == (map k <- y.m.tables | k.dir != c :: y.m.tables[k])
    ensures z.image == x.image && FreeOf(z) == FreeOf(x)
  {
    hide ForkedLayout, EagerFork, EagerDrop;
    NothingInNewDirectory(x, c);
    ImageKeys(x);
    hide Sound;
    ImageForkUndone(x.image, p, c);
    LayoutForkUndone(x.m, y.m, z.m, p, c);
    SameLayoutSameFree(x, z);
  }

  lemma ImageForkUndone(image: Image, p: nat, c: nat)
    requires forall s <- image :: s.dir != c
    ensures EagerDrop(EagerFork(image, p, c), c) == image
  {
  }

  lemma LayoutForkUndone(m: Layout, y: Layout, z: Layout, p: nat, c: nat)
    requires ForkedLayout(m, y, p, c) && (forall s <- m.leaves :: s.dir != c) && (forall k <- m.tables :: k.dir != c)
    requires z.leaves == (map s <- y.leaves | s.dir != c :: y.leaves[s])
    requires z.tables == (map k <- y.tables | k.dir != c :: y.tables[k])
    ensures z.tables == m.tables && z.leaves.Keys == m.leaves.Keys
    ensures forall s <- m.leaves :: z.leaves[s].frame == m.leaves[s].frame
  {
    forall s: Slot ensures s in z.leaves <==> s in m.leaves { }
    forall k: TableSlot ensures k in z.tables <==> k in m.tables { }
  }

  // ---------------------------------------------------------------- the room that fork needs

  /** What a completed fork of p into c looks like. */
  ghost predicate ForkCompleted(x: Memory, y: Memory, p: nat, c: nat) {
    && Sound(x) && Tidy(x) && Sound(y) && Tidy(y) && y.held == x.held && y.reserved == x.reserved
    && c !in x.m.dirs && y.m.dirs == x.m.dirs + {c} && ForkedLayout(x.m, y.m, p, c)
  }

  /** Fork can be completed only with the room that is asked for before it is begun: each of the parent's tables needs one
      in the child, and each of its frames one more reference. */
  lemma ForkNeedsRoom(x: Memory, y: Memory, p: nat, c: nat)
    requires ForkCompleted(x, y, p, c)
    ensures ForkRoom(x, p)
  {
    hide ForkCompleted, TableIndexes, FreeFrames;
    CountsNeeded(x, y, p, c);
    FramesNeeded(x, y, p, c);
  }

  lemma CountsNeeded(x: Memory, y: Memory, p: nat, c: nat)
    requires ForkCompleted(x, y, p, c)
    ensures forall s <- x.m.leaves :: s.dir == p && x.m.leaves[s].frame < MAX_FRAMES ==> x.counts[x.m.leaves[s].frame] < 255
  {
    hide ForkCompleted;
    forall s <- x.m.leaves | s.dir == p && x.m.leaves[s].frame < MAX_FRAMES
      ensures x.counts[x.m.leaves[s].frame] < 255
    {
      OneMoreReference(x, y, p, c, s);
    }
  }

  lemma FramesNeeded(x: Memory, y: Memory, p: nat, c: nat)
    requires ForkCompleted(x, y, p, c)
    ensures |FreeOf(x)| > |TableIndexes(x.m, p)|
  {
    hide ForkCompleted, TableIndexes, FreeFrames;
    var indexes := TableIndexes(x.m, p);
    forall i <- indexes ensures NewTable(x, y, p, c, i) { TableNeeded(x, y, p, c, i); }
    DirectoryNeeded(x, y, p, c);
    hide FreeOf;
    var tables := map i <- indexes :: y.m.tables[TableSlot(c, i)];
    InjectiveValues(tables);
    assert tables.Keys == indexes && tables.Values + {c} <= FreeOf(x) && c !in tables.Values;
    Smaller(tables.Values + {c}, FreeOf(x));
  }

  lemma OneMoreReference(x: Memory, y: Memory, p: nat, c: nat, s: Slot)
    requires ForkCompleted(x, y, p, c) && s in x.m.leaves && s.dir == p && x.m.leaves[s].frame < MAX_FRAMES
    ensures x.counts[x.m.leaves[s].frame] < y.counts[x.m.leaves[s].frame]
  {
    hide KernelHalf, Agrees, CopyOnWrite, Shows, Uncounted, Tidy;
    var f := x.m.leaves[s].frame;
    OneMoreUse(x.m, y.m, p, c, s);
    hide ForkedLayout, LeafUses;
    assert x.counts[f] == Uses(x.m, f) + x.held[f] && y.counts[f] == Uses(y.m, f) + y.held[f];
  }

  lemma OneMoreUse(m: Layout, m': Layout, p: nat, c: nat, s: Slot)
    requires WellFormed(m) && ForkedLayout(m, m', p, c) && c !in m.dirs && s in m.leaves && s.dir == p
    ensures |LeafUses(m', m.leaves[s].frame)| > |LeafUses(m, m.leaves[s].frame)| && NoStructure(m, m.leaves[s].frame)
  {
    var f, t := m.leaves[s].frame, Slot(c, s.page);
    assert t in m'.leaves && m'.leaves[t].frame == f;
    forall u <- m.leaves ensures u.dir != c { assert TableSlot(u.dir, u.page.pd) in m.tables; }
    forall u <- LeafUses(m, f) ensures u in LeafUses(m', f) { }
    assert LeafUses(m, f) + {t} <= LeafUses(m', f);
    Smaller(LeafUses(m, f) + {t}, LeafUses(m', f));
  }

  /** A table of the child's that answers one of the parent's, in a frame that was free. */
  ghost predicate NewTable(x: Memory, y: Memory, p: nat, c: nat, i: nat) {
    && TableSlot(c, i) in y.m.tables && y.m.tables[TableSlot(c, i)] in FreeOf(x) && y.m.tables[TableSlot(c, i)] != c
    && y.m.tables[TableSlot(c, i)] in y.m.owner && y.m.owner[y.m.tables[TableSlot(c, i)]] == TableSlot(c, i)
  }

  lemma TableNeeded(x: Memory, y: Memory, p: nat, c: nat, i: nat)
    requires ForkCompleted(x, y, p, c) && i in TableIndexes(x.m, p)
    ensures NewTable(x, y, p, c, i)
  {
    hide KernelHalf, Agrees, Balanced, CopyOnWrite, Shows, Uncounted;
    assert HasPage(x.m, TableSlot(p, i));
    var s :| s in x.m.leaves && s.dir == p && s.page.pd == i;
    assert Slot(c, s.page) in y.m.leaves && TableSlot(c, i) in y.m.tables;
    StructureWasFree(x, y, p, c, y.m.tables[TableSlot(c, i)]);
  }

  lemma DirectoryNeeded(x: Memory, y: Memory, p: nat, c: nat)
    requires ForkCompleted(x, y, p, c)
    ensures c in FreeOf(x)
  {
    StructureWasFree(x, y, p, c, c);
  }

  /** The directory and the tables of the child lie in frames that were free. */
  lemma StructureWasFree(x: Memory, y: Memory, p: nat, c: nat, f: nat)
    requires ForkCompleted(x, y, p, c)
    requires f == c || (f in y.m.owner && y.m.owner[f].dir == c)
    ensures f in FreeOf(x)
  {
    StructureCounted(y, f);
    StructureUnheld(y, f);
    hide Agrees, CopyOnWrite, Shows, KernelHalf, Uncounted, Tidy;
    assert f !in x.m.dirs;
    forall k <- x.m.tables ensures x.m.tables[k] != f && k.dir != c { assert k in y.m.tables && y.m.tables[k] == x.m.tables[k]; }
    assert f !in x.m.owner;
    forall s <- x.m.leaves ensures x.m.leaves[s].frame != f { assert s in y.m.leaves && y.m.leaves[s].frame == x.m.leaves[s].frame; }
    assert LeafUses(x.m, f) == {};
    assert x.counts[f] == Uses(x.m, f) + x.held[f];
  }

  lemma StructureCounted(y: Memory, f: nat)
    requires Sound(y) && !NoStructure(y.m, f)
    ensures f < MAX_FRAMES && f !in y.reserved
  {
    TablesInRam(y);
    OwnerFrames(y);
    Reachable(y, f);
  }

  lemma OwnerFrames(y: Memory)
    requires Sound(y)
    ensures (forall d <- y.m.dirs :: d < MAX_FRAMES) && forall f <- y.m.owner :: f < MAX_FRAMES
  {
    hide KernelHalf, Agrees, Balanced, CopyOnWrite, Shows, Uncounted;
  }

  lemma StructureUnheld(y: Memory, f: nat)
    requires Sound(y) && Tidy(y) && !NoStructure(y.m, f) && f < MAX_FRAMES
    ensures y.held[f] == 0
  {
    hide KernelHalf, Agrees, Balanced, CopyOnWrite, Shows, Uncounted;
  }
}
