/** The copy-on-write fork of kernel/paging.c:202-229, one shared page at a time. */
module Fork {
  import opened Bytes
  import opened Pmm
  import opened PageTables
  import opened Paging

  // ---------------------------------------------------------------- sharing one page

  /** The parent's entry loses write access and the child maps the same frame: a reference is added,
      then the parent's entry rewritten, then the child's written (with its table made in frame t). */
  function ShareStep(x: Memory, s: Slot, c: nat, t: nat): Memory
    requires s in x.m.leaves && x.m.leaves[s].frame < MAX_FRAMES && x.counts[x.m.leaves[s].frame] < 255
    requires NeedsTable(x.m, Slot(c, s.page)) ==> t < MAX_FRAMES
  {
    MapStep(SharedParent(x, s), Slot(c, s.page), Pte(x.m.leaves[s].frame, SHARED), t)
  }

  ghost predicate CanShare(x: Memory, s: Slot, c: nat, t: nat) {
    && Sound(x) && s in x.m.leaves && s.page.pd < ENTRIES
    && c in x.m.dirs && c != s.dir && Slot(c, s.page) !in x.m.leaves
    && x.m.leaves[s].frame < MAX_FRAMES && x.counts[x.m.leaves[s].frame] < 255
    && (NeedsTable(x.m, Slot(c, s.page)) ==> t in FreeFrames(x.counts, x.reserved))
  }

  /** What is known of a mapped page. */
  lemma LeafFacts(x: Memory, s: Slot)
    requires Sound(x) && s in x.m.leaves
    ensures TableOf(s) in x.m.tables && x.m.tables[TableOf(s)] < MAX_FRAMES
    ensures IDENTITY_TABLES <= s.page.pd < ENTRIES && s.page.pt < ENTRIES
    ensures x.m.leaves[s].frame < MAX_FRAMES && NoStructure(x.m, x.m.leaves[s].frame)
    ensures x.m.leaves[s].frame != x.m.tables[TableOf(s)] && !Unused(x.m, x.m.leaves[s].frame)
    ensures x.m.leaves[s].flags == OWNED || x.m.leaves[s].flags == SHARED
    ensures s in x.image && x.image[s] == BytesAt(x.ram, x.m.leaves[s].frame)
  {
    hide KernelHalf, Agrees, Balanced, Uncounted;
  }

  /** Marking a page copy-on-write is allowed: whoever else maps its frame is copy-on-write already. */
  lemma MayShare(x: Memory, s: Slot)
    requires Sound(x) && s in x.m.leaves
    ensures MayMap(x.m, s, Pte(x.m.leaves[s].frame, SHARED))
    ensures forall u <- x.m.leaves :: u != s && x.m.leaves[u].frame == x.m.leaves[s].frame ==>
      u.page == s.page && x.m.leaves[u].flags == SHARED
  {
    hide KernelHalf, Agrees, Balanced, Shows, Uncounted;
    forall u <- x.m.leaves | u != s && x.m.leaves[u].frame == x.m.leaves[s].frame
      ensures u.page == s.page && x.m.leaves[u].flags == SHARED
    {
      OthersShared(x.m, s, u);
    }
  }

  /** After the parent's half: the extra reference is held, the entry is copy-on-write. */
  function SharedParent(x: Memory, s: Slot): Memory
    requires s in x.m.leaves && x.m.leaves[s].frame < MAX_FRAMES && x.counts[x.m.leaves[s].frame] < 255
  {
    var y := HoldStep(x, x.m.leaves[s].frame);
    LeafStep(y, s, Pte(x.m.leaves[s].frame, SHARED), y.counts, y.held)
  }

  lemma SharedParentSound(x: Memory, s: Slot)
    requires Sound(x) && s in x.m.leaves
    requires x.m.leaves[s].frame < MAX_FRAMES && x.counts[x.m.leaves[s].frame] < 255
    ensures Sound(SharedParent(x, s))
    ensures SharedParent(x, s).image == x.image
    ensures BytesAt(SharedParent(x, s).ram, x.m.leaves[s].frame) == x.image[s]
    ensures SharedParent(x, s).m == x.m.(leaves := x.m.leaves[s := Pte(x.m.leaves[s].frame, SHARED)])
  {
    hide Sound, MayMap;
    LeafFacts(x, s);
    var f := x.m.leaves[s].frame;
    Reachable(x, f);
    HoldStepSound(x, f);
    MayShare(x, s);
    var y := HoldStep(x, f);
    TablesInRam(y);
    LeafStepSound(y, s, Pte(f, SHARED), y.counts, y.held);
  }

  lemma ChildMayMap(x: Memory, s: Slot, c: nat)
    requires Sound(x) && s in x.m.leaves && c != s.dir
    requires x.m.leaves[s].frame < MAX_FRAMES && x.counts[x.m.leaves[s].frame] < 255
    ensures MayMap(SharedParent(x, s).m, Slot(c, s.page), Pte(x.m.leaves[s].frame, SHARED))
  {
    hide Sound;
    SharedParentSound(x, s);
    LeafFacts(x, s);
    MayShare(x, s);
  }

  /** One page shared: the frame gains a count, both sides are copy-on-write, the child reads what
      the parent reads, and nothing else changes. */
  lemma ShareStepSound(x: Memory, s: Slot, c: nat, t: nat)
    requires CanShare(x, s, c, t)
    ensures Sound(ShareStep(x, s, c, t))
    ensures ShareStep(x, s, c, t).image == x.image[Slot(c, s.page) := x.image[s]]
    ensures ShareStep(x, s, c, t).held == x.held
    ensures ShareStep(x, s, c, t).m.dirs == x.m.dirs
    ensures ShareStep(x, s, c, t).m.leaves ==
      x.m.leaves[s := Pte(x.m.leaves[s].frame, SHARED)][Slot(c, s.page) := Pte(x.m.leaves[s].frame, SHARED)]
    ensures ShareStep(x, s, c, t).m.tables ==
      if NeedsTable(x.m, Slot(c, s.page)) then x.m.tables[TableSlot(c, s.page.pd) := t] else x.m.tables
    ensures ShareStep(x, s, c, t).counts ==
      var counts := x.counts[x.m.leaves[s].frame := x.counts[x.m.leaves[s].frame] + 1];
      if NeedsTable(x.m, Slot(c, s.page)) then counts[t := 1] else counts
  {
    hide Sound, MayMap;
    LeafFacts(x, s);
    SharedParentSound(x, s);
    ChildMayMap(x, s, c);
    var f, y := x.m.leaves[s].frame, SharedParent(x, s);
    Reachable(x, f);
    MapStepSound(y, Slot(c, s.page), Pte(f, SHARED), t);
  }

  lemma SharedHeldApart(held: Tally, m: Layout, m': Layout, s: Slot, u: Slot, t: nat)
    requires HeldApart(held, m) && s in m.leaves && m'.dirs == m.dirs
    requires m'.leaves == m.leaves[s := Pte(m.leaves[s].frame, SHARED)][u := Pte(m.leaves[s].frame, SHARED)]
    requires m'.tables == if NeedsTable(m, u) then m.tables[TableOf(u) := t] else m.tables
    requires NeedsTable(m, u) && t < MAX_FRAMES ==> held[t] == 0
    ensures HeldApart(held, m')
  {
  }

  lemma SharedTablesUsed(m: Layout, m': Layout, s: Slot, u: Slot, t: nat)
    requires TablesUsed(m) && s in m.leaves
    requires m'.leaves == m.leaves[s := Pte(m.leaves[s].frame, SHARED)][u := Pte(m.leaves[s].frame, SHARED)]
    requires m'.tables == if NeedsTable(m, u) then m.tables[TableOf(u) := t] else m.tables
    ensures TablesUsed(m')
  {
    assert u in m'.leaves && HasPage(m', TableOf(u));
    TablesStayUsed(m, m');
  }

  /** The table made for the child is free before and maps the shared page after. */
  lemma ShareStepTidy(x: Memory, s: Slot, c: nat, t: nat)
    requires CanShare(x, s, c, t) && Tidy(x)
    ensures Tidy(ShareStep(x, s, c, t))
  {
    ShareStepSound(x, s, c, t);
    if NeedsTable(x.m, Slot(c, s.page)) { FreeUnheld(x, t); }
    hide Sound, ShareStep, HeldApart, TablesUsed;
    SharedHeldApart(x.held, x.m, ShareStep(x, s, c, t).m, s, Slot(c, s.page), t);
    SharedTablesUsed(x.m, ShareStep(x, s, c, t).m, s, Slot(c, s.page), t);
  }

  // ---------------------------------------------------------------- the whole loop

  /** The pages that come before a position of the nested loops. */
  predicate Before(p: VPage, pd: nat, pt: nat) { p.pd < pd || (p.pd == pd && p.pt < pt) }

  /** The page a forked page was copied from. */
  function Origin(s: Slot, p: nat, c: nat): Slot { if s.dir == c then Slot(p, s.page) else s }

  /** What fork promises: every page of the parent copied into the child, eagerly. */
  function EagerFork(image: Image, p: nat, c: nat): Image {
    map s <- image.Keys + (set s <- image | s.dir == p :: Slot(c, s.page)) :: image[if s in image then s else Slot(p, s.page)]
  }

  /** The parent's pages so far are copy-on-write and mapped in the child at the same place. */
  ghost predicate LeafProgress(x0: Memory, x: Memory, p: nat, c: nat, pd: nat, pt: nat) {
    && (forall s: Slot :: s.dir != c ==> (s in x.m.leaves <==> s in x0.m.leaves))
    && (forall q: VPage :: Slot(c, q) in x.m.leaves <==> Slot(p, q) in x0.m.leaves && Before(q, pd, pt))
    && (forall s <- x.m.leaves :: Origin(s, p, c) in x0.m.leaves &&
          x.m.leaves[s] == if (s.dir == p || s.dir == c) && Before(s.page, pd, pt)
                           then Pte(x0.m.leaves[Origin(s, p, c)].frame, SHARED) else x0.m.leaves[Origin(s, p, c)])
    && x.image.Keys == x.m.leaves.Keys
    && (forall s <- x.m.leaves :: Origin(s, p, c) in x0.image && x.image[s] == x0.image[Origin(s, p, c)])
  }

  /** The directory entries of an address space that point to page tables. */
  function TableIndexes(m: Layout, d: nat): set<nat> { set k <- m.tables | k.dir == d :: k.pd }

  /** How far the loops of fork have come, from the state just after the child's directory was made. */
  ghost predicate Progress(x0: Memory, x: Memory, p: nat, c: nat, pd: nat, pt: nat)
  {
    && x.held == x0.held && x.reserved == x0.reserved && x.kernel == x0.kernel && x.m.dirs == x0.m.dirs
    && LeafProgress(x0, x, p, c, pd, pt)
    && (forall k: TableSlot :: k.dir != c ==> (k in x.m.tables <==> k in x0.m.tables))
    && (forall k <- x.m.tables :: k.dir != c ==> x.m.tables[k] == x0.m.tables[k])
    && (forall k <- x.m.tables :: k.dir == c ==> TableSlot(p, k.pd) in x0.m.tables)
    && (forall s <- x0.m.leaves :: s.dir == p && !Before(s.page, pd, pt) && x0.m.leaves[s].frame < MAX_FRAMES ==>
          x.counts[x0.m.leaves[s].frame] == x0.counts[x0.m.leaves[s].frame])
    && |FreeFrames(x.counts, x.reserved)| + |TableIndexes(x.m, c)| == |FreeFrames(x0.counts, x0.reserved)|
    && (Tidy(x0) ==> Tidy(x))
  }

  lemma ProgressStart(x0: Memory, p: nat, c: nat)
    requires Sound(x0) && p != c && (forall k <- x0.m.tables :: k.dir != c)
    ensures Progress(x0, x0, p, c, IDENTITY_TABLES, 0)
  {
    forall s <- x0.m.leaves
      ensures TableOf(s) in x0.m.tables && IDENTITY_TABLES <= s.page.pd && s in x0.image
    {
      LeafFacts(x0, s);
    }
    assert TableIndexes(x0.m, c) == {};
  }

  /** Nothing mapped at this page of the parent: the loop moves on. */
  lemma ProgressSkip(x0: Memory, x: Memory, p: nat, c: nat, pd: nat, pt: nat)
    requires Progress(x0, x, p, c, pd, pt) && Slot(p, VPage(pd, pt)) !in x0.m.leaves
    ensures Progress(x0, x, p, c, pd, pt + 1)
  {
    hide Tidy, FreeFrames, TableIndexes;
    forall s <- x.m.leaves
      ensures s.page != VPage(pd, pt) || (s.dir != p && s.dir != c)
    {
    }
  }

  /** No page of the parent lies at or beyond pt in this row: on to the next one. */
  lemma ProgressNextRow(x0: Memory, x: Memory, p: nat, c: nat, pd: nat, pt: nat)
    requires Progress(x0, x, p, c, pd, pt)
    requires forall s <- x0.m.leaves :: s.dir == p && s.page.pd == pd ==> s.page.pt < pt
    ensures Progress(x0, x, p, c, pd + 1, 0)
  {
    hide Tidy, FreeFrames, TableIndexes;
    forall q | Slot(p, q) in x0.m.leaves
      ensures Before(q, pd, pt) <==> Before(q, pd + 1, 0)
    {
    }
  }

  /** The leaf part of sharing the parent's page s. */
  ghost predicate SharesLeaf(x: Memory, x': Memory, s: Slot, c: nat)
    requires s in x.m.leaves && s in x.image
  {
    && x'.m.leaves == x.m.leaves[s := Pte(x.m.leaves[s].frame, SHARED)][Slot(c, s.page) := Pte(x.m.leaves[s].frame, SHARED)]
    && x'.image == x.image[Slot(c, s.page) := x.image[s]]
  }

  lemma LeafProgressAt(x0: Memory, x: Memory, p: nat, c: nat, pd: nat, pt: nat, x': Memory, u: Slot)
    requires p != c && LeafProgress(x0, x, p, c, pd, pt)
    requires Slot(p, VPage(pd, pt)) in x.m.leaves && SharesLeaf(x, x', Slot(p, VPage(pd, pt)), c)
    requires u in x'.m.leaves
    ensures Origin(u, p, c) in x0.m.leaves
    ensures x'.m.leaves[u] == if (u.dir == p || u.dir == c) && Before(u.page, pd, pt + 1)
                         then Pte(x0.m.leaves[Origin(u, p, c)].frame, SHARED) else x0.m.leaves[Origin(u, p, c)]
    ensures Origin(u, p, c) in x0.image && x'.image[u] == x0.image[Origin(u, p, c)]
  {
    var s := Slot(p, VPage(pd, pt));
    if u == Slot(c, s.page) || u == s {
      assert Origin(u, p, c) == s && Origin(s, p, c) == s;
    } else {
      assert u in x.m.leaves;
      assert u.dir == p || u.dir == c ==> u.page != s.page;
    }
  }

  lemma LeafKeysShare(x0: Memory, x: Memory, p: nat, c: nat, pd: nat, pt: nat, x': Memory)
    requires p != c && LeafProgress(x0, x, p, c, pd, pt)
    requires Slot(p, VPage(pd, pt)) in x.m.leaves && SharesLeaf(x, x', Slot(p, VPage(pd, pt)), c)
    ensures forall u: Slot :: u.dir != c ==> (u in x'.m.leaves <==> u in x0.m.leaves)
    ensures forall q: VPage :: Slot(c, q) in x'.m.leaves <==> Slot(p, q) in x0.m.leaves && Before(q, pd, pt + 1)
    ensures x'.image.Keys == x'.m.leaves.Keys
  {
    forall q: VPage
      ensures Slot(c, q) in x'.m.leaves <==> Slot(p, q) in x0.m.leaves && Before(q, pd, pt + 1)
    {
      assert Slot(c, q) in x.m.leaves <==> Slot(p, q) in x0.m.leaves && Before(q, pd, pt);
      assert Slot(p, q) in x.m.leaves <==> Slot(p, q) in x0.m.leaves;
    }
    forall u: Slot | u.dir != c
      ensures u in x'.m.leaves <==> u in x0.m.leaves
    {
      assert u in x.m.leaves <==> u in x0.m.leaves;
    }
  }

  lemma LeafProgressShare(x0: Memory, x: Memory, p: nat, c: nat, pd: nat, pt: nat, x': Memory)
    requires p != c && LeafProgress(x0, x, p, c, pd, pt)
    requires Slot(p, VPage(pd, pt)) in x.m.leaves && SharesLeaf(x, x', Slot(p, VPage(pd, pt)), c)
    ensures LeafProgress(x0, x', p, c, pd, pt + 1)
  {
    LeafKeysShare(x0, x, p, c, pd, pt, x');
    forall u <- x'.m.leaves
      ensures Origin(u, p, c) in x0.m.leaves
      ensures x'.m.leaves[u] == if (u.dir == p || u.dir == c) && Before(u.page, pd, pt + 1)
                           then Pte(x0.m.leaves[Origin(u, p, c)].frame, SHARED) else x0.m.leaves[Origin(u, p, c)]
      ensures Origin(u, p, c) in x0.image && x'.image[u] == x0.image[Origin(u, p, c)]
    {
      LeafProgressAt(x0, x, p, c, pd, pt, x', u);
    }
    hide SharesLeaf, Origin, Before;
  }

  /** Each new table of the child answers one of the parent's. */
  lemma TableProgressShare(m: Layout, m': Layout, k: TableSlot, t: nat, free: set<nat>, free': set<nat>)
    requires k !in m.tables && m'.tables == m.tables[k := t]
    requires t in free && free' == free - {t}
    ensures |free'| + |TableIndexes(m', k.dir)| == |free| + |TableIndexes(m, k.dir)|
  {
    assert TableIndexes(m', k.dir) == TableIndexes(m, k.dir) + {k.pd};
    assert k.pd !in TableIndexes(m, k.dir);
  }

  /** The free frames after sharing a page whose frame had some references, with or without a new table in frame t. */
  lemma FreeSharing(counts: Counts, counts': Counts, reserved: set<nat>, f: nat, t: nat, needed: bool)
    requires f < MAX_FRAMES && f !in reserved && 0 < counts[f] < 255 && (needed ==> t in FreeFrames(counts, reserved))
    requires counts' == if needed then counts[f := counts[f] + 1][t := 1] else counts[f := counts[f] + 1]
    ensures FreeFrames(counts', reserved) == FreeFrames(counts, reserved) - if needed then {t} else {}
  {
    if needed { FreeAfterShare(counts, reserved, f, counts[f] + 1, t); }
    else { FreeAfterUpdate(counts, reserved, f, counts[f] + 1); }
  }

  /** A shared page costs a frame exactly when the child gets a table for it. */
  lemma FramesProgressShare(x: Memory, p: nat, c: nat, pd: nat, pt: nat, t: nat)
    requires p != c && Slot(p, VPage(pd, pt)) in x.m.leaves && CanShare(x, Slot(p, VPage(pd, pt)), c, t)
    ensures var x' := ShareStep(x, Slot(p, VPage(pd, pt)), c, t);
      |FreeFrames(x'.counts, x'.reserved)| + |TableIndexes(x'.m, c)| == |FreeFrames(x.counts, x.reserved)| + |TableIndexes(x.m, c)|
  {
    var s := Slot(p, VPage(pd, pt));
    var x' := ShareStep(x, s, c, t);
    hide Sound, ShareStep;
    ShareStepSound(x, s, c, t);
    SameKernel(x, s, c, t);
    LeafFacts(x, s);
    Reachable(x, x.m.leaves[s].frame);
    hide Unused, NoStructure, TableIndexes;
    var needed := NeedsTable(x.m, Slot(c, s.page));
    var free, free' := FreeFrames(x.counts, x.reserved), FreeFrames(x'.counts, x'.reserved);
    FreeSharing(x.counts, x'.counts, x.reserved, x.m.leaves[s].frame, t, needed);
    if needed { TableProgressShare(x.m, x'.m, TableSlot(c, pd), t, free, free'); } else { SameTables(x.m, x'.m, c); }
  }

  lemma SameTables(m: Layout, m': Layout, d: nat)
    requires m'.tables == m.tables
    ensures TableIndexes(m', d) == TableIndexes(m, d)
  {
  }

  lemma ProgressShare(x0: Memory, x: Memory, p: nat, c: nat, pd: nat, pt: nat, t: nat)
    requires Sound(x0) && p != c && Progress(x0, x, p, c, pd, pt)
    requires Slot(p, VPage(pd, pt)) in x.m.leaves && CanShare(x, Slot(p, VPage(pd, pt)), c, t)
    ensures Progress(x0, ShareStep(x, Slot(p, VPage(pd, pt)), c, t), p, c, pd, pt + 1)
  {
    hide Sound, LeafProgress, ShareStep, Tidy;
    var s := Slot(p, VPage(pd, pt));
    var x' := ShareStep(x, s, c, t);
    hide FreeFrames, TableIndexes;
    ShareStepSound(x, s, c, t);
    if Tidy(x) { ShareStepTidy(x, s, c, t); }
    LeafFacts(x, s);
    LeafProgressShare(x0, x, p, c, pd, pt, x');
    CountProgressShare(x0, x, p, c, pd, pt, t);
    SameKernel(x, s, c, t);
    FramesProgressShare(x, p, c, pd, pt, t);
  }

  lemma SameKernel(x: Memory, s: Slot, c: nat, t: nat)
    requires CanShare(x, s, c, t)
    ensures ShareStep(x, s, c, t).kernel == x.kernel && ShareStep(x, s, c, t).reserved == x.reserved
  {
    hide Sound;
  }

  lemma FreeAfterShare(counts: Counts, reserved: set<nat>, f: nat, n: Byte, t: nat)
    requires f < MAX_FRAMES && f !in reserved && counts[f] > 0 && n > 0 && t in FreeFrames(counts, reserved)
    ensures FreeFrames(counts[f := n][t := 1], reserved) == FreeFrames(counts, reserved) - {t}
  {
  }

  lemma CountProgressShare(x0: Memory, x: Memory, p: nat, c: nat, pd: nat, pt: nat, t: nat)
    requires Sound(x0) && p != c && Progress(x0, x, p, c, pd, pt)
    requires Slot(p, VPage(pd, pt)) in x.m.leaves && CanShare(x, Slot(p, VPage(pd, pt)), c, t)
    ensures var x' := ShareStep(x, Slot(p, VPage(pd, pt)), c, t);
      forall s <- x0.m.leaves :: s.dir == p && !Before(s.page, pd, pt + 1) && x0.m.leaves[s].frame < MAX_FRAMES ==>
        x'.counts[x0.m.leaves[s].frame] == x0.counts[x0.m.leaves[s].frame]
  {
    hide Sound, ShareStep;
    var u := Slot(p, VPage(pd, pt));
    ShareStepSound(x, u, c, t);
    forall s <- x0.m.leaves | s.dir == p && !Before(s.page, pd, pt + 1) && x0.m.leaves[s].frame < MAX_FRAMES
      ensures x0.m.leaves[s].frame != x0.m.leaves[u].frame && x0.counts[x0.m.leaves[s].frame] > 0
    {
      SameFrameSamePage(x0, s, u);
      Reachable(x0, x0.m.leaves[s].frame);
    }
  }

  lemma SameFrameSamePage(x: Memory, s: Slot, u: Slot)
    requires Sound(x) && s in x.m.leaves && u in x.m.leaves && s.page != u.page
    ensures x.m.leaves[s].frame != x.m.leaves[u].frame
  {
    hide KernelHalf, Agrees, Balanced, Shows, Uncounted;
  }

  /** While the child lacks a table the parent has, a frame set aside for it is still free. */
  lemma RoomForTable(x0: Memory, x: Memory, p: nat, c: nat, pd: nat, pt: nat)
    requires Progress(x0, x, p, c, pd, pt) && |FreeFrames(x0.counts, x0.reserved)| >= |TableIndexes(x0.m, p)|
    requires TableSlot(p, pd) in x0.m.tables && TableSlot(c, pd) !in x.m.tables
    ensures FreeFrames(x.counts, x.reserved) != {}
  {
    var mine, theirs := TableIndexes(x.m, c), TableIndexes(x0.m, p);
    assert pd in theirs && pd !in mine;
    assert mine <= theirs - {pd};
    Smaller(mine, theirs - {pd});
  }

  // ---------------------------------------------------------------- the methods

  /** One more reference to a frame in use, held until an entry takes it over. */
  method AddReference(mem: AddressSpaces, frame: nat)
    requires mem.Valid() && frame < MAX_FRAMES && frame !in mem.pmm.reserved && 0 < mem.pmm.Counts()[frame] < 255
    modifies mem, mem.pmm, mem.pmm.frameRefcount
    ensures mem.Valid() && mem.Now() == HoldStep(old(mem.Now()), frame) && mem.pmm.Free() == old(mem.pmm.Free())
  {
    hide Sound;
    HoldStepSound(mem.Now(), frame);
    mem.pmm.FrameAddref(frame);
    mem.held := Hold(mem.held, frame);
    assert mem.Now() == HoldStep(old(mem.Now()), frame);
  }

  /** The parent's half of sharing a page: one more reference, and write access stripped. */
  method ShareParent(mem: AddressSpaces, p: nat, parentTable: nat, pd: nat, pt: nat) returns (frame: nat, cowFlags: bv12)
    requires mem.Valid() && pd < ENTRIES && pt < ENTRIES
    requires Slot(p, VPage(pd, pt)) in mem.m.leaves && p in mem.m.dirs
    requires TableSlot(p, pd) in mem.m.tables && mem.m.tables[TableSlot(p, pd)] == parentTable < IDENTITY_FRAMES
    requires mem.m.leaves[Slot(p, VPage(pd, pt))].frame < MAX_FRAMES
    requires mem.pmm.Counts()[mem.m.leaves[Slot(p, VPage(pd, pt))].frame] < 255
    modifies mem, mem.ram, mem.pmm, mem.pmm.frameBitmap, mem.pmm.frameRefcount
    ensures mem.Valid() && mem.Now() == SharedParent(old(mem.Now()), Slot(p, VPage(pd, pt)))
    ensures mem.pmm.Free() == old(mem.pmm.Free())
    ensures frame == old(mem.m.leaves[Slot(p, VPage(pd, pt))].frame) && cowFlags | PRESENT == SHARED
  {
    hide Sound, MayMap;
    ghost var x, s := mem.Now(), Slot(p, VPage(pd, pt));
    LeafFacts(x, s);
    Walk(x, p, s.page);
    Reachable(x, x.m.leaves[s].frame);
    CowFlags(x.m.leaves[s].flags);
    SharedParentSound(x, s);

    var entry := mem.Word(parentTable, pt);
    frame := entry.frame;
    var flags := entry.flags & 0xFFF & !PRESENT;
    cowFlags := (flags & !RW) | COW;
    AddReference(mem, frame);
    mem.SetWord(parentTable, pt, Pte(frame, (cowFlags & 0xFFF) | PRESENT));
    mem.m := WithLeaf(mem.m, s, Pte(frame, SHARED));
    mem.image := Mapped(x.ram, x.image, s, Pte(frame, SHARED));
    assert mem.Now() == SharedParent(x, s);
  }

  /** The body of fork's inner loop, for one present entry of the parent's table. */
  method SharePage(mem: AddressSpaces, p: nat, c: nat, parentTable: nat, pd: nat, pt: nat) returns (ghost t: nat)
    requires mem.Valid() && pd < ENTRIES && pt < ENTRIES && p in mem.m.dirs
    requires Slot(p, VPage(pd, pt)) in mem.m.leaves && Slot(c, VPage(pd, pt)) !in mem.m.leaves
    requires c in mem.m.dirs && c != p
    requires TableSlot(p, pd) in mem.m.tables && mem.m.tables[TableSlot(p, pd)] == parentTable < IDENTITY_FRAMES
    requires mem.m.leaves[Slot(p, VPage(pd, pt))].frame < MAX_FRAMES
    requires mem.pmm.Counts()[mem.m.leaves[Slot(p, VPage(pd, pt))].frame] < 255
    requires NeedsTable(mem.m, Slot(c, VPage(pd, pt))) ==> mem.pmm.Free() != {}
    modifies mem, mem.ram, mem.pmm, mem.pmm.frameBitmap, mem.pmm.frameRefcount
    ensures mem.Valid()
    ensures CanShare(old(mem.Now()), Slot(p, VPage(pd, pt)), c, t)
    ensures mem.Now() == ShareStep(old(mem.Now()), Slot(p, VPage(pd, pt)), c, t)
  {
    hide Sound, MapStep, MayMap;
    ghost var x, s := mem.Now(), Slot(p, VPage(pd, pt));
    LeafFacts(x, s);
    SharedParentSound(x, s);
    ChildMayMap(x, s, c);
    AddressJoins(s.page, 0);
    var frame, cowFlags := ShareParent(mem, p, parentTable, pd, pt);
    var ok;
    ok, t := mem.MapUserPage(c, frame, pd * 0x40_0000 + pt * FRAME_SIZE, cowFlags);
  }

  /** What fork needs: a frame for each page table of the parent, and room in every 8-bit count. */
  ghost predicate Forkable(x: Memory, p: nat) {
    && |FreeFrames(x.counts, x.reserved)| >= |TableIndexes(x.m, p)|
    && (forall s <- x.m.leaves :: s.dir == p && x.m.leaves[s].frame < MAX_FRAMES ==> x.counts[x.m.leaves[s].frame] < 255)
  }

  /** The state fork works from: the child's directory exists and nothing is in it. */
  ghost predicate ForkStart(x0: Memory, p: nat, c: nat) {
    Sound(x0) && p != c && p in x0.m.dirs && c in x0.m.dirs && Forkable(x0, p)
  }

  lemma NextPage(x0: Memory, x: Memory, p: nat, c: nat, pd: nat, pt: nat)
    requires ForkStart(x0, p, c) && Sound(x) && Progress(x0, x, p, c, pd, pt) && pd < ENTRIES && pt < ENTRIES
    ensures var s := Slot(p, VPage(pd, pt)); s in x.m.leaves <==> s in x0.m.leaves
    ensures var s := Slot(p, VPage(pd, pt)); s in x.m.leaves ==>
      && x.m.leaves[s].frame < MAX_FRAMES && x.counts[x.m.leaves[s].frame] < 255 && x.m.leaves[s] != NO_PTE
      && x.m.leaves[s].flags & PRESENT != 0
      && Slot(c, s.page) !in x.m.leaves
      && (NeedsTable(x.m, Slot(c, s.page)) ==> FreeFrames(x.counts, x.reserved) != {})
  {
    hide Sound;
    var s := Slot(p, VPage(pd, pt));
    if s in x.m.leaves {
      LeafFacts(x, s);
      LeafFacts(x0, s);
      FlagBits();
      if NeedsTable(x.m, Slot(c, s.page)) {
        RoomForTable(x0, x, p, c, pd, pt);
      }
    }
  }

  /** One step of fork's inner loop: an absent entry is passed over, a present one shared. */
  method ShareIfPresent(mem: AddressSpaces, p: nat, c: nat, parentTable: nat, pd: nat, pt: nat, ghost x0: Memory)
    requires mem.Valid() && ForkStart(x0, p, c) && Progress(x0, mem.Now(), p, c, pd, pt)
    requires IDENTITY_TABLES <= pd < ENTRIES && pt < ENTRIES
    requires TableSlot(p, pd) in mem.m.tables && mem.m.tables[TableSlot(p, pd)] == parentTable < IDENTITY_FRAMES
    modifies mem, mem.ram, mem.pmm, mem.pmm.frameBitmap, mem.pmm.frameRefcount
    ensures mem.Valid() && Progress(x0, mem.Now(), p, c, pd, pt + 1)
    ensures TableSlot(p, pd) in mem.m.tables && mem.m.tables[TableSlot(p, pd)] == parentTable
  {
    hide Sound, LeafProgress, ShareStep, Forkable;
    ghost var x := mem.Now();
    Walk(x, p, VPage(pd, pt));
    NextPage(x0, x, p, c, pd, pt);
    FlagBits();
    if mem.Word(parentTable, pt).Present() {
      ghost var t := SharePage(mem, p, c, parentTable, pd, pt);
      ProgressShare(x0, x, p, c, pd, pt, t);
      ShareStepSound(x, Slot(p, VPage(pd, pt)), c, t);
    } else {
      ProgressSkip(x0, x, p, c, pd, pt);
    }
  }

  /** One row of fork's nested loops: a present directory entry of the parent. */
  method ShareRow(mem: AddressSpaces, p: nat, c: nat, pd: nat, ghost x0: Memory)
    requires mem.Valid() && ForkStart(x0, p, c) && Progress(x0, mem.Now(), p, c, pd, 0)
    requires IDENTITY_TABLES <= pd < ENTRIES && TableSlot(p, pd) in mem.m.tables
    modifies mem, mem.ram, mem.pmm, mem.pmm.frameBitmap, mem.pmm.frameRefcount
    ensures mem.Valid() && Progress(x0, mem.Now(), p, c, pd + 1, 0)
  {
    hide Sound, LeafProgress, ShareStep, Forkable;
    Walk(mem.Now(), p, VPage(pd, 0));
    var parentTable := mem.Word(p, pd).frame;
    for pt := 0 to ENTRIES
      invariant mem.Valid() && Progress(x0, mem.Now(), p, c, pd, pt)
      invariant TableSlot(p, pd) in mem.m.tables && mem.m.tables[TableSlot(p, pd)] == parentTable
    {
      ShareIfPresent(mem, p, c, parentTable, pd, pt, x0);
    }
    RowIsDone(x0, p);
    ProgressNextRow(x0, mem.Now(), p, c, pd, ENTRIES);
  }

  lemma RowIsDone(x0: Memory, p: nat)
    requires Sound(x0)
    ensures forall s <- x0.m.leaves :: s.page.pt < ENTRIES && s.page.pd < ENTRIES && TableOf(s) in x0.m.tables
  {
    hide KernelHalf, Agrees, Balanced, CopyOnWrite, Shows, Uncounted;
  }

  /** The loops done, the image is the eager copy and every shared page is copy-on-write. */
  lemma ForkDone(x0: Memory, x: Memory, p: nat, c: nat)
    requires p != c && LeafProgress(x0, x, p, c, ENTRIES, 0)
    requires forall s <- x0.m.leaves :: s.dir != c && s.page.pd < ENTRIES
    requires x0.image.Keys == x0.m.leaves.Keys
    ensures x.image == EagerFork(x0.image, p, c)
    ensures forall s <- x.m.leaves :: s.dir == p || s.dir == c ==> x.m.leaves[s].flags == SHARED
  {
    forall q: VPage
      ensures Slot(c, q) in x.m.leaves <==> Slot(p, q) in x0.m.leaves
    {
    }
    ImageOfFork(x0.image, x.image, p, c);
    forall s <- x.m.leaves | s.dir == p || s.dir == c
      ensures x.m.leaves[s].flags == SHARED
    {
      assert Origin(s, p, c) in x0.m.leaves;
      assert Before(s.page, ENTRIES, 0);
    }
  }

  lemma ImageKeys(x: Memory)
    requires Sound(x)
    ensures x.image.Keys == x.m.leaves.Keys
  {
    hide KernelHalf, Agrees, Balanced, CopyOnWrite, Uncounted;
  }

  lemma ImageOfFork(before: Image, after: Image, p: nat, c: nat)
    requires p != c && forall s <- before :: s.dir != c
    requires forall s: Slot :: s in after <==> s in before || (s.dir == c && Slot(p, s.page) in before)
    requires forall s <- after :: Origin(s, p, c) in before && after[s] == before[Origin(s, p, c)]
    ensures after == EagerFork(before, p, c)
  {
  }

  lemma NothingInNewDirectory(x: Memory, c: nat)
    requires Sound(x) && c !in x.m.dirs
    ensures forall s <- x.m.leaves :: s.dir != c
    ensures forall k <- x.m.tables :: k.dir != c
  {
    hide KernelHalf, Agrees, Balanced, CopyOnWrite, Shows, Uncounted;
  }

  /** paging_clone_address_space: the child reads what the parent reads, page for page, and no other
      address space notices. */
  method CloneAddressSpace(mem: AddressSpaces, p: nat) returns (c: nat)
    requires mem.Valid() && p in mem.m.dirs
    requires Forkable(mem.Now(), p) && |mem.pmm.Free()| > |TableIndexes(mem.m, p)|
    modifies mem, mem.ram, mem.pmm, mem.pmm.frameBitmap, mem.pmm.frameRefcount
    ensures mem.Valid()
    ensures c in old(mem.pmm.Free()) && c !in old(mem.m.dirs) && mem.m.dirs == old(mem.m.dirs) + {c}
    ensures mem.held == old(mem.held) && (old(Tidy(mem.Now())) ==> Tidy(mem.Now()))
    ensures mem.image == EagerFork(old(mem.image), p, c)
    ensures |mem.pmm.Free()| == |old(mem.pmm.Free())| - 1 - |TableIndexes(mem.m, c)|
    ensures TableIndexes(mem.m, c) <= TableIndexes(old(mem.m), p)
    ensures ForkedLayout(old(mem.m), mem.m, p, c)
  {
    hide Sound, LeafProgress, EagerFork, Forkable, Tidy;
    c := mem.CloneKernelDirectory();
    ghost var x0 := mem.Now();
    StartsFork(old(mem.Now()), p, c);
    if old(Tidy(mem.Now())) { DirStepTidy(old(mem.Now()), c); }
    ProgressStart(x0, p, c);
    ShareAll(mem, p, c, x0);
    RowIsDone(x0, p);
    ImageKeys(x0);
    ForkDone(x0, mem.Now(), p, c);
    SharedIndexes(x0, mem.Now(), p, c);
    ForkedLayoutIs(old(mem.Now()), x0, mem.Now(), p, c);
  }

  /** Fork leaves every table in place and every page in its frame, and the pages of third parties quite alone; the child
      maps the parent's frames, page for page. */
  ghost predicate ForkedLayout(m: Layout, m': Layout, p: nat, c: nat) {
    && (forall k: TableSlot :: k.dir != c ==> (k in m'.tables <==> k in m.tables))
    && (forall k <- m'.tables :: k.dir != c ==> k in m.tables && m'.tables[k] == m.tables[k])
    && (forall s: Slot :: s.dir != c ==> (s in m'.leaves <==> s in m.leaves))
    && (forall s <- m'.leaves :: s.dir != c ==> s in m.leaves && m'.leaves[s].frame == m.leaves[s].frame)
    && (forall s <- m'.leaves :: s.dir != c && s.dir != p ==> s in m.leaves && m'.leaves[s] == m.leaves[s])
    && (forall q: VPage :: Slot(c, q) in m'.leaves <==> Slot(p, q) in m.leaves)
    && (forall s <- m'.leaves :: s.dir == c ==>
          Slot(p, s.page) in m.leaves && m'.leaves[s].frame == m.leaves[Slot(p, s.page)].frame)
  }

  /** What the finished walk has done to one page entry. */
  lemma LeafForked(x0: Memory, x: Memory, p: nat, c: nat, s: Slot)
    requires LeafProgress(x0, x, p, c, ENTRIES, 0) && p != c && forall t <- x0.m.leaves :: t.page.pd < ENTRIES
    ensures s.dir != c ==> (s in x.m.leaves <==> s in x0.m.leaves)
    ensures s.dir == c ==> (s in x.m.leaves <==> Slot(p, s.page) in x0.m.leaves)
    ensures s in x.m.leaves ==> Origin(s, p, c) in x0.m.leaves && x.m.leaves[s].frame == x0.m.leaves[Origin(s, p, c)].frame
    ensures s in x.m.leaves && s.dir != c && s.dir != p ==> x.m.leaves[s] == x0.m.leaves[s]
  {
    assert Slot(p, s.page) in x0.m.leaves ==> Before(s.page, ENTRIES, 0);
    assert s.dir == c ==> s == Slot(c, s.page);
  }

  lemma ForkedLayoutIs(before: Memory, x0: Memory, x: Memory, p: nat, c: nat)
    requires Progress(x0, x, p, c, ENTRIES, 0) && p != c && c < MAX_FRAMES && x0 == DirStep(before, c)
    requires forall s <- x0.m.leaves :: s.page.pd < ENTRIES
    ensures ForkedLayout(before.m, x.m, p, c)
  {
    hide Tidy, FreeFrames, TableIndexes, LeafProgress;
    forall s: Slot
      ensures s.dir != c ==> (s in x.m.leaves <==> s in x0.m.leaves)
      ensures s.dir == c ==> (s in x.m.leaves <==> Slot(p, s.page) in x0.m.leaves)
      ensures s in x.m.leaves ==> Origin(s, p, c) in x0.m.leaves && x.m.leaves[s].frame == x0.m.leaves[Origin(s, p, c)].frame
      ensures s in x.m.leaves && s.dir != c && s.dir != p ==> x.m.leaves[s] == x0.m.leaves[s]
    {
      LeafForked(x0, x, p, c, s);
    }
  }

  lemma SharedIndexes(x0: Memory, x: Memory, p: nat, c: nat)
    requires Progress(x0, x, p, c, ENTRIES, 0)
    ensures TableIndexes(x.m, c) <= TableIndexes(x0.m, p)
    ensures |FreeFrames(x.counts, x.reserved)| == |FreeFrames(x0.counts, x0.reserved)| - |TableIndexes(x.m, c)|
  {
  }

  method ShareAll(mem: AddressSpaces, p: nat, c: nat, ghost x0: Memory)
    requires mem.Valid() && ForkStart(x0, p, c) && Progress(x0, mem.Now(), p, c, IDENTITY_TABLES, 0)
    modifies mem, mem.ram, mem.pmm, mem.pmm.frameBitmap, mem.pmm.frameRefcount
    ensures mem.Valid() && Progress(x0, mem.Now(), p, c, ENTRIES, 0)
  {
    hide Sound, LeafProgress, Forkable;
    for pd := IDENTITY_TABLES to ENTRIES
      invariant mem.Valid() && Progress(x0, mem.Now(), p, c, pd, 0)
    {
      Walk(mem.Now(), p, VPage(pd, 0));
      FlagBits();
      if mem.Word(p, pd).Present() {
        ShareRow(mem, p, c, pd, x0);
      } else {
        NoRow(x0, mem.Now(), p, c, pd);
        ProgressNextRow(x0, mem.Now(), p, c, pd, 0);
      }
    }
  }

  lemma NoRow(x0: Memory, x: Memory, p: nat, c: nat, pd: nat)
    requires Sound(x0) && p != c && Progress(x0, x, p, c, pd, 0) && TableSlot(p, pd) !in x.m.tables
    ensures forall s <- x0.m.leaves :: s.dir == p && s.page.pd == pd ==> s.page.pt < 0
  {
    hide Sound;
    RowIsDone(x0, p);
  }

  lemma StartsFork(x: Memory, p: nat, c: nat)
    requires Sound(x) && p in x.m.dirs && Forkable(x, p) && c in FreeFrames(x.counts, x.reserved) && c !in x.m.dirs
    requires |FreeFrames(x.counts, x.reserved)| > |TableIndexes(x.m, p)|
    ensures Sound(DirStep(x, c)) && ForkStart(DirStep(x, c), p, c)
    ensures forall s <- x.m.leaves :: s.dir != c
    ensures forall k <- x.m.tables :: k.dir != c
  {
    hide Sound;
    NothingInNewDirectory(x, c);
    DirStepSound(x, c);
    var y := DirStep(x, c);
    FreeAfterUpdate(x.counts, x.reserved, c, 1);
    assert TableIndexes(y.m, p) == TableIndexes(x.m, p);
    forall s <- x.m.leaves | s.dir == p && x.m.leaves[s].frame < MAX_FRAMES
      ensures y.counts[x.m.leaves[s].frame] < 255
    {
    }
  }
}
