/** Teardown of an address space: kernel/paging.c:306-325, with the directory's own frame dropped
    after it as kernel/task.c:410-411 does. */
module Teardown {
  import opened Pmm
  import opened PageTables
  import opened Paging
  import opened Fork

  /** One page unmapped and its frame dropped. */
  function ClearStep(x: Memory, s: Slot): Memory
    requires s in x.m.leaves
  {
    LeafStep(x, s, NO_PTE, Drop(x.counts, x.m.leaves[s].frame), x.held)
  }

  lemma ClearStepSound(x: Memory, s: Slot)
    requires Sound(x) && s in x.m.leaves
    ensures Sound(ClearStep(x, s))
    ensures ClearStep(x, s).m == x.m.(leaves := x.m.leaves - {s}) && ClearStep(x, s).image == x.image - {s}
  {
    hide Sound;
    LeafFacts(x, s);
    TablesInRam(x);
    Reachable(x, x.m.leaves[s].frame);
    LeafStepSound(x, s, NO_PTE, Drop(x.counts, x.m.leaves[s].frame), x.held);
  }

  /** The pages of a map that teardown of d has not reached: all but d's before (pd, pt). */
  function Keep<V>(f: map<Slot, V>, d: nat, pd: nat, pt: nat): map<Slot, V> {
    map s <- f | !(s.dir == d && Before(s.page, pd, pt)) :: f[s]
  }

  function KeepTables(f: map<TableSlot, nat>, d: nat, pd: nat): map<TableSlot, nat> {
    map k <- f | !(k.dir == d && k.pd < pd) :: f[k]
  }

  /** How far the loops of teardown have come: pages before (pd, pt) and tables before pd are gone. */
  ghost predicate Torn(x0: Memory, x: Memory, d: nat, pd: nat, pt: nat) {
    && x.held == x0.held && x.reserved == x0.reserved && x.kernel == x0.kernel && x.m.dirs == x0.m.dirs
    && x.m.leaves == Keep(x0.m.leaves, d, pd, pt)
    && x.image == Keep(x0.image, d, pd, pt)
    && x.m.tables == KeepTables(x0.m.tables, d, pd)
    && PagesUnwritten(x0, x)
  }

  /** Only directories and tables have been written. */
  ghost predicate PagesUnwritten(x0: Memory, x: Memory) {
    forall f: nat :: f < MAX_FRAMES && NoStructure(x0.m, f) ==> x.ram[f] == x0.ram[f]
  }

  lemma EntryUnwritten(x0: Memory, ram: Ram, f: nat, i: nat, e: Pte)
    requires !NoStructure(x0.m, f)
    ensures forall g: nat :: g < MAX_FRAMES && NoStructure(x0.m, g) ==> WithEntry(ram, f, i, e)[g] == ram[g]
  {
  }

  lemma TableIsStructure(x0: Memory, x: Memory, d: nat, pd: nat, pt: nat, k: TableSlot)
    requires Sound(x0) && Torn(x0, x, d, pd, pt) && k in x.m.tables
    ensures !NoStructure(x0.m, x.m.tables[k])
  {
    hide KernelHalf, Agrees, Balanced, CopyOnWrite, Shows, Uncounted;
  }

  /** Moving on over pages that are not mapped. */
  lemma KeepOn<V>(f: map<Slot, V>, d: nat, pd: nat, pt: nat, pd': nat, pt': nat)
    requires forall s <- f :: s.dir == d ==> (Before(s.page, pd, pt) <==> Before(s.page, pd', pt'))
    ensures Keep(f, d, pd, pt) == Keep(f, d, pd', pt')
  {
  }

  lemma KeepOnTables(f: map<TableSlot, nat>, d: nat, pd: nat)
    ensures KeepTables(f, d, pd + 1) == KeepTables(f, d, pd) - {TableSlot(d, pd)}
  {
  }

  lemma KeepLess<V>(f: map<Slot, V>, d: nat, pd: nat, pt: nat)
    ensures Keep(f, d, pd, pt + 1) == Keep(f, d, pd, pt) - {Slot(d, VPage(pd, pt))}
  {
    forall s: Slot | s.dir == d
      ensures Before(s.page, pd, pt + 1) <==> Before(s.page, pd, pt) || s == Slot(d, VPage(pd, pt))
    {
    }
  }

  /** All of one address space taken away. */
  function EagerDrop(image: Image, d: nat): Image { map s <- image | s.dir != d :: image[s] }

  lemma TornStart(x0: Memory, d: nat)
    requires Sound(x0)
    ensures Torn(x0, x0, d, IDENTITY_TABLES, 0)
  {
    ImageKeys(x0);
    forall s <- x0.m.leaves ensures s.page.pd >= IDENTITY_TABLES { LeafFacts(x0, s); }
    TableBounds(x0);
    hide Sound;
  }

  lemma TableBounds(x: Memory)
    requires Sound(x)
    ensures forall k <- x.m.tables :: IDENTITY_TABLES <= k.pd < ENTRIES && k.dir in x.m.dirs
  {
    hide KernelHalf, Agrees, Balanced, CopyOnWrite, Shows, Uncounted;
  }

  lemma TornSkip(x0: Memory, x: Memory, d: nat, pd: nat, pt: nat)
    requires Sound(x) && Torn(x0, x, d, pd, pt) && Slot(d, VPage(pd, pt)) !in x.m.leaves
    ensures Torn(x0, x, d, pd, pt + 1)
  {
    ImageKeys(x);
    hide Sound, PagesUnwritten;
    KeepLess(x0.m.leaves, d, pd, pt);
    KeepLess(x0.image, d, pd, pt);
  }

  lemma TornClear(x0: Memory, x: Memory, d: nat, pd: nat, pt: nat)
    requires Sound(x0) && Sound(x) && Torn(x0, x, d, pd, pt) && Slot(d, VPage(pd, pt)) in x.m.leaves
    ensures Torn(x0, ClearStep(x, Slot(d, VPage(pd, pt))), d, pd, pt + 1)
  {
    var s := Slot(d, VPage(pd, pt));
    LeafFacts(x, s);
    TableIsStructure(x0, x, d, pd, pt, TableOf(s));
    EntryUnwritten(x0, x.ram, x.m.tables[TableOf(s)], pt, NO_PTE);
    hide Sound, Keep, WithEntry, NoStructure, KeepTables;
    ClearStepSound(x, s);
    KeepLess(x0.m.leaves, d, pd, pt);
    KeepLess(x0.image, d, pd, pt);
  }

  /** A row without pages is left behind, together with its table if it has one. */
  lemma TornRow(x0: Memory, x: Memory, x': Memory, d: nat, pd: nat, pt: nat)
    requires Sound(x0) && Torn(x0, x, d, pd, pt)
    requires pt == ENTRIES || (pt == 0 && TableSlot(d, pd) !in x0.m.tables)
    requires x' == x.(ram := x'.ram, counts := x'.counts, m := x'.m)
    requires x'.m == x.m.(tables := x.m.tables - {TableSlot(d, pd)}, owner := x'.m.owner)
    requires PagesUnwritten(x0, x')
    ensures Torn(x0, x', d, pd + 1, 0)
  {
    RowIsDone(x0, d);
    ImageKeys(x0);
    hide Sound, Keep, KeepTables, PagesUnwritten;
    KeepOn(x0.m.leaves, d, pd, pt, pd + 1, 0);
    KeepOn(x0.image, d, pd, pt, pd + 1, 0);
    KeepOnTables(x0.m.tables, d, pd);
  }

  lemma DirectoryUnwritten(x0: Memory, x: Memory, d: nat, pd: nat, k: TableSlot)
    requires Torn(x0, x, d, pd, ENTRIES) && d in x.m.dirs && k in x.m.tables && k.dir == d
    ensures PagesUnwritten(x0, NoTableStep(x, k))
  {
    EntryUnwritten(x0, x.ram, d, k.pd, NO_PTE);
    hide WithEntry, Keep, KeepTables;
  }

  lemma NoPagesLeft(x0: Memory, x: Memory, d: nat, pd: nat)
    requires Sound(x0) && Torn(x0, x, d, pd, ENTRIES)
    ensures forall s <- x.m.leaves :: TableOf(s) != TableSlot(d, pd)
  {
    RowIsDone(x0, d);
    hide Sound;
  }

  lemma NoTableThere(x0: Memory, x: Memory, d: nat, pd: nat)
    requires Torn(x0, x, d, pd, 0) && TableSlot(d, pd) !in x.m.tables
    ensures TableSlot(d, pd) !in x0.m.tables && x.m.tables == x.m.tables - {TableSlot(d, pd)}
  {
  }

  lemma TornUnwritten(x0: Memory, x: Memory, d: nat, pd: nat, pt: nat)
    requires Torn(x0, x, d, pd, pt)
    ensures PagesUnwritten(x0, x)
  {
  }

  lemma TornDone(x0: Memory, x: Memory, d: nat)
    requires Sound(x0) && Torn(x0, x, d, ENTRIES, 0)
    ensures x.m.leaves == (map s <- x0.m.leaves | s.dir != d :: x0.m.leaves[s])
    ensures x.m.tables == (map k <- x0.m.tables | k.dir != d :: x0.m.tables[k])
    ensures x.image == EagerDrop(x0.image, d)
  {
    RowIsDone(x0, d);
    ImageKeys(x0);
    TableBounds(x0);
    hide Sound;
  }

  // ---------------------------------------------------------------- the methods

  /** The body of teardown's inner loop. */
  method ClearPage(mem: AddressSpaces, d: nat, table: nat, pd: nat, pt: nat, ghost x0: Memory)
    requires mem.Valid() && Sound(x0) && Torn(x0, mem.Now(), d, pd, pt) && d in mem.m.dirs
    requires IDENTITY_TABLES <= pd < ENTRIES && pt < ENTRIES
    requires TableSlot(d, pd) in mem.m.tables && mem.m.tables[TableSlot(d, pd)] == table < IDENTITY_FRAMES
    modifies mem, mem.ram, mem.pmm, mem.pmm.frameBitmap, mem.pmm.frameRefcount
    ensures mem.Valid() && Torn(x0, mem.Now(), d, pd, pt + 1) && mem.m.dirs == old(mem.m.dirs)
    ensures TableSlot(d, pd) in mem.m.tables && mem.m.tables[TableSlot(d, pd)] == table
  {
    hide Sound, Torn;
    ghost var x, s := mem.Now(), Slot(d, VPage(pd, pt));
    Walk(x, d, s.page);
    FlagBits();
    if s in x.m.leaves { LeafFacts(x, s); }
    if !mem.Word(table, pt).Present() {
      TornSkip(x0, x, d, pd, pt);
      return;
    }
    ClearStepSound(x, s);
    TornClear(x0, x, d, pd, pt);
    var frame := mem.Word(table, pt).frame;
    mem.pmm.FreeFrame(frame);
    mem.SetWord(table, pt, NO_PTE);
    mem.m, mem.image := WithLeaf(mem.m, s, NO_PTE), Mapped(x.ram, x.image, s, NO_PTE);
    assert mem.Now() == ClearStep(x, s);
  }

  /** One row of teardown's nested loops, then the row's page table. */
  method ClearRow(mem: AddressSpaces, d: nat, pd: nat, ghost x0: Memory)
    requires mem.Valid() && Sound(x0) && Torn(x0, mem.Now(), d, pd, 0) && d in mem.m.dirs
    requires IDENTITY_TABLES <= pd < ENTRIES && TableSlot(d, pd) in mem.m.tables
    modifies mem, mem.ram, mem.pmm, mem.pmm.frameBitmap, mem.pmm.frameRefcount
    ensures mem.Valid() && Torn(x0, mem.Now(), d, pd + 1, 0)
  {
    hide Sound, Torn;
    Walk(mem.Now(), d, VPage(pd, 0));
    var table := mem.Word(d, pd).frame;
    for pt := 0 to ENTRIES
      invariant mem.Valid() && Torn(x0, mem.Now(), d, pd, pt) && d in mem.m.dirs
      invariant TableSlot(d, pd) in mem.m.tables && mem.m.tables[TableSlot(d, pd)] == table
    {
      ClearPage(mem, d, table, pd, pt, x0);
    }
    DropTable(mem, d, pd, table, x0);
  }

  method DropTable(mem: AddressSpaces, d: nat, pd: nat, table: nat, ghost x0: Memory)
    requires mem.Valid() && Sound(x0) && Torn(x0, mem.Now(), d, pd, ENTRIES) && d in mem.m.dirs
    requires IDENTITY_TABLES <= pd < ENTRIES && TableSlot(d, pd) in mem.m.tables && mem.m.tables[TableSlot(d, pd)] == table
    modifies mem, mem.ram, mem.pmm, mem.pmm.frameBitmap, mem.pmm.frameRefcount
    ensures mem.Valid() && Torn(x0, mem.Now(), d, pd + 1, 0)
  {
    hide Sound, Torn;
    ghost var x, k := mem.Now(), TableSlot(d, pd);
    Walk(x, d, VPage(pd, 0));
    NoPagesLeft(x0, x, d, pd);
    DirectoryUnwritten(x0, x, d, pd, k);
    TornRow(x0, x, NoTableStep(x, k), d, pd, ENTRIES);
    NoTableStepSound(x, k);
    mem.pmm.FreeFrame(table);
    mem.SetWord(d, pd, NO_PTE);
    mem.m := WithoutTable(mem.m, k);
    assert mem.Now() == NoTableStep(x, k);
  }

  /** paging_free_address_space: the pages and tables of one address space go, nothing else changes. */
  method FreeAddressSpace(mem: AddressSpaces, d: nat)
    requires mem.Valid() && d in mem.m.dirs
    modifies mem, mem.ram, mem.pmm, mem.pmm.frameBitmap, mem.pmm.frameRefcount
    ensures mem.Valid() && mem.m.dirs == old(mem.m.dirs) && mem.held == old(mem.held)
    ensures mem.m.leaves == (map s <- old(mem.m.leaves) | s.dir != d :: old(mem.m.leaves)[s])
    ensures mem.m.tables == (map k <- old(mem.m.tables) | k.dir != d :: old(mem.m.tables)[k])
    ensures mem.image == EagerDrop(old(mem.image), d)
    ensures PagesUnwritten(old(mem.Now()), mem.Now())
  {
    hide Sound, EagerDrop, PagesUnwritten;
    ghost var x0 := mem.Now();
    TornStart(x0, d);
    for pd := IDENTITY_TABLES to ENTRIES
      invariant mem.Valid() && Torn(x0, mem.Now(), d, pd, 0)
    {
      Walk(mem.Now(), d, VPage(pd, 0));
      FlagBits();
      if mem.Word(d, pd).Present() {
        ClearRow(mem, d, pd, x0);
      } else {
        NoTableThere(x0, mem.Now(), d, pd);
        TornUnwritten(x0, mem.Now(), d, pd, 0);
        TornRow(x0, mem.Now(), mem.Now(), d, pd, 0);
      }
    }
    TornDone(x0, mem.Now(), d);
    TornUnwritten(x0, mem.Now(), d, ENTRIES, 0);
  }

  /** What goes in a teardown leaves nothing half used. */
  lemma TornTidy(x: Memory, y: Memory, d: nat)
    requires Tidy(x) && y.held == x.held && y.m.dirs <= x.m.dirs
    requires y.m.leaves == (map s <- x.m.leaves | s.dir != d :: x.m.leaves[s])
    requires y.m.tables == (map k <- x.m.tables | k.dir != d :: x.m.tables[k])
    ensures Tidy(y)
  {
    forall k <- y.m.tables
      ensures HasPage(y.m, k)
    {
      assert HasPage(x.m, k);
      var s :| s in x.m.leaves && s.dir == k.dir && s.page.pd == k.pd;
      assert s in y.m.leaves;
    }
  }

  /** The whole of reaping an address space: its pages, its tables, and its directory frame. */
  method ReleaseAddressSpace(mem: AddressSpaces, d: nat)
    requires mem.Valid() && d in mem.m.dirs
    modifies mem, mem.ram, mem.pmm, mem.pmm.frameBitmap, mem.pmm.frameRefcount
    ensures mem.Valid() && mem.m.dirs == old(mem.m.dirs) - {d} && mem.held == old(mem.held)
    ensures mem.m.leaves == (map s <- old(mem.m.leaves) | s.dir != d :: old(mem.m.leaves)[s])
    ensures mem.m.tables == (map k <- old(mem.m.tables) | k.dir != d :: old(mem.m.tables)[k])
    ensures mem.image == EagerDrop(old(mem.image), d)
    ensures old(Tidy(mem.Now())) ==> Tidy(mem.Now())
    ensures PagesUnwritten(old(mem.Now()), mem.Now())
  {
    hide Sound, EagerDrop, Tidy;
    FreeAddressSpace(mem, d);
    ghost var x := mem.Now();
    NoDirStepSound(x, d);
    mem.pmm.FreeFrame(d);
    mem.m := WithoutDir(mem.m, d);
    assert mem.Now() == NoDirStep(x, d);
    if old(Tidy(mem.Now())) { TornTidy(old(mem.Now()), mem.Now(), d); }
  }
}
