/** Ring-3 loads and stores through the page walk, with the copy-on-write fault handler of
    kernel/paging.c:239-288 as the processor and kernel/idt.c:127-131 invoke it. */
module UserAccess {
  import opened Options
  import opened Bytes
  import opened Pmm
  import opened PageTables
  import opened Paging
  import opened Fork

  // ---------------------------------------------------------------- the two ways out of a fault

  /** A frame is allocated and held by the kernel. */
  function AllocStep(x: Memory, n: nat): Memory
    requires n < MAX_FRAMES
  {
    x.(counts := x.counts[n := 1], held := Hold(x.held, n))
  }

  lemma AllocStepSound(x: Memory, n: nat)
    requires Sound(x) && n in FreeFrames(x.counts, x.reserved)
    ensures Sound(AllocStep(x, n)) && Unused(x.m, n) && x.held[n] == 0 && n < IDENTITY_FRAMES
    ensures FreeFrames(AllocStep(x, n).counts, x.reserved) == FreeFrames(x.counts, x.reserved) - {n}
  {
    UseCounts(x.counts, x.held, x.m, n);
    FreeAfterUpdate(x.counts, x.reserved, n, 1);
    hide Agrees, CopyOnWrite, Shows;
    AllocBalanced(x.counts, x.held, x.m, n);
  }

  lemma AllocBalanced(counts: Counts, held: Tally, m: Layout, n: nat)
    requires Balanced(counts, held, m) && n < MAX_FRAMES && counts[n] == 0
    ensures Balanced(counts[n := 1], Hold(held, n), m)
  {
  }

  /** The frame has no other user: its entry becomes writable. */
  function ReclaimStep(x: Memory, s: Slot): Memory
    requires s in x.m.leaves
  {
    LeafStep(x, s, Pte(x.m.leaves[s].frame, OWNED), x.counts, x.held)
  }

  /** A frame whose count is one has one mapper. */
  lemma SoleMapper(x: Memory, s: Slot)
    requires Sound(x) && s in x.m.leaves
    requires x.m.leaves[s].frame < MAX_FRAMES && x.counts[x.m.leaves[s].frame] <= 1
    ensures LeafUses(x.m, x.m.leaves[s].frame) == {s}
  {
    hide KernelHalf, Agrees, CopyOnWrite, Shows, Uncounted;
    var f := x.m.leaves[s].frame;
    assert x.counts[f] == Uses(x.m, f) + x.held[f];
    var all := LeafUses(x.m, f);
    assert s in all;
    assert |all - {s}| == |all| - 1;
    assert all == {s};
  }

  lemma ReclaimStepSound(x: Memory, s: Slot)
    requires Sound(x) && s in x.m.leaves
    requires x.m.leaves[s].frame < MAX_FRAMES && x.counts[x.m.leaves[s].frame] <= 1
    ensures Sound(ReclaimStep(x, s)) && ReclaimStep(x, s).image == x.image
  {
    hide Sound;
    LeafFacts(x, s);
    SoleMapper(x, s);
    TablesInRam(x);
    var f := x.m.leaves[s].frame;
    assert forall u <- x.m.leaves :: u != s ==> u !in LeafUses(x.m, f);
    LeafStepSound(x, s, Pte(f, OWNED), x.counts, x.held);
  }

  /** The frame is shared: its bytes are copied into frame n, which replaces it in the entry. */
  function CopyStep(x: Memory, s: Slot, n: nat): Memory
    requires s in x.m.leaves && n < MAX_FRAMES && x.m.leaves[s].frame < MAX_FRAMES
  {
    var y := AllocStep(x, n);
    var z := y.(ram := y.ram[n := Page(Contents(y.ram[x.m.leaves[s].frame]))]);
    LeafStep(z, s, Pte(n, OWNED), Drop(z.counts, x.m.leaves[s].frame), x.held)
  }

  lemma CopyStepSound(x: Memory, s: Slot, n: nat)
    requires Sound(x) && s in x.m.leaves && x.m.leaves[s].frame < MAX_FRAMES
    requires n in FreeFrames(x.counts, x.reserved)
    ensures Sound(CopyStep(x, s, n)) && CopyStep(x, s, n).image == x.image
  {
    hide Sound;
    LeafFacts(x, s);
    AllocStepSound(x, n);
    var f, y := x.m.leaves[s].frame, AllocStep(x, n);
    ScratchStepSound(y, n, Page(Contents(y.ram[f])));
    var z := y.(ram := y.ram[n := Page(Contents(y.ram[f]))]);
    TablesInRam(z);
    Reachable(x, f);
    DropKeepsUncounted(z.counts, x.reserved, f);
    LeafStepSound(z, s, Pte(n, OWNED), Drop(z.counts, f), x.held);
  }

  lemma DropKeepsUncounted(counts: Counts, reserved: set<nat>, f: nat)
    requires Uncounted(counts, reserved)
    ensures Uncounted(Drop(counts, f), reserved)
  {
  }

  // ---------------------------------------------------------------- the handler

  method CopyPage(mem: AddressSpaces, dst: nat, src: nat)
    requires mem.ram.Length == MAX_FRAMES && dst < IDENTITY_FRAMES && src < IDENTITY_FRAMES && dst != src
    modifies mem.ram
    ensures mem.ram[..] == old(mem.ram[..])[dst := Page(old(Contents(mem.ram[src])))]
  {
    ghost var bytes := Contents(mem.ram[src]);
    for b := 0 to FRAME_SIZE
      invariant forall f: nat :: f < MAX_FRAMES && f != dst ==> mem.ram[f] == old(mem.ram[f])
      invariant b > 0 ==> mem.ram[dst].Page? && |mem.ram[dst].bytes| == FRAME_SIZE && mem.ram[dst].bytes[..b] == bytes[..b]
    {
      mem.ram[dst] := Page(Contents(mem.ram[dst])[b := Contents(mem.ram[src])[b]]);
      assert bytes[..b + 1] == bytes[..b] + [bytes[b]];
    }
    assert mem.ram[dst].bytes == bytes;
  }

  /** A write fault the handler can resolve: the page is copy-on-write and, if its frame is still
      shared, a frame is free for the copy. */
  ghost predicate Resolvable(x: Memory, s: Slot) {
    && s in x.m.leaves && x.m.leaves[s].flags == SHARED && x.m.leaves[s].frame < MAX_FRAMES
    && (x.counts[x.m.leaves[s].frame] <= 1 || FreeFrames(x.counts, x.reserved) != {})
  }

  /** What resolving a fault does: the page is reclaimed, or copied into a frame that was free. */
  ghost predicate Resolved(x: Memory, s: Slot, y: Memory) {
    && s in x.m.leaves && x.m.leaves[s].frame < MAX_FRAMES
    && if x.counts[x.m.leaves[s].frame] <= 1 then y == ReclaimStep(x, s)
       else exists n <- FreeFrames(x.counts, x.reserved) :: n < MAX_FRAMES && y == CopyStep(x, s, n)
  }

  /** No program sees a byte change, the page is now the program's own, and at most one frame is spent. */
  lemma ResolvedFacts(x: Memory, s: Slot, y: Memory)
    requires Sound(x) && Resolved(x, s, y)
    ensures Sound(y) && y.image == x.image && y.held == x.held && y.reserved == x.reserved
    ensures y.m.dirs == x.m.dirs && y.m.tables == x.m.tables && y.m.leaves.Keys == x.m.leaves.Keys
    ensures y.m.leaves[s].flags == OWNED
    ensures |FreeFrames(y.counts, y.reserved)| >= |FreeFrames(x.counts, x.reserved)| - 1
  {
    hide Sound;
    LeafFacts(x, s);
    if x.counts[x.m.leaves[s].frame] <= 1 {
      ReclaimStepSound(x, s);
    } else {
      var n :| n in FreeFrames(x.counts, x.reserved) && n < MAX_FRAMES && y == CopyStep(x, s, n);
      CopyStepSound(x, s, n);
      CopySpends(x, s, n);
    }
  }

  /** A copy moves one page entry, and takes one frame. */
  lemma CopySpends(x: Memory, s: Slot, n: nat)
    requires s in x.m.leaves && x.m.leaves[s].frame < MAX_FRAMES && x.counts[x.m.leaves[s].frame] > 1
    requires n in FreeFrames(x.counts, x.reserved) && n < MAX_FRAMES
    ensures var y := CopyStep(x, s, n);
      && y.held == x.held && y.reserved == x.reserved && y.m == WithLeaf(x.m, s, Pte(n, OWNED))
      && |FreeFrames(y.counts, y.reserved)| >= |FreeFrames(x.counts, x.reserved)| - 1
  {
    hide Contents;
    var y, free := CopyStep(x, s, n), FreeFrames(x.counts, x.reserved) - {n};
    assert free <= FreeFrames(y.counts, y.reserved);
    Smaller(free, FreeFrames(y.counts, y.reserved));
  }

  lemma RemappedInherits(m: Layout, s: Slot, e: Pte)
    requires s in m.leaves && e != NO_PTE
    requires e.frame == m.leaves[s].frame || LeafUses(WithLeaf(m, s, e), e.frame) == {s}
    ensures forall d: nat :: Inherits(m, WithLeaf(m, s, e), d)
    ensures forall d: nat :: d != s.dir ==> KeptAt(m, WithLeaf(m, s, e), d)
  {
  }

  /** Resolving a fault moves at most one page, to a frame of its own. */
  lemma ResolvedInherits(x: Memory, s: Slot, y: Memory)
    requires Sound(x) && Resolved(x, s, y)
    ensures forall d: nat :: Inherits(x.m, y.m, d)
    ensures forall d: nat :: d != s.dir ==> KeptAt(x.m, y.m, d)
  {
    ResolvedFacts(x, s, y);
    OwnedAlone(y, s);
    hide Sound, Inherits, KeptAt, WithLeaf, Mapped;
    if x.counts[x.m.leaves[s].frame] <= 1 {
      RemappedInherits(x.m, s, Pte(x.m.leaves[s].frame, OWNED));
    } else {
      var n :| n in FreeFrames(x.counts, x.reserved) && n < MAX_FRAMES && y == CopyStep(x, s, n);
      LeafIs(x.m, s, Pte(n, OWNED));
      RemappedInherits(x.m, s, Pte(n, OWNED));
    }
  }

  lemma LeafIs(m: Layout, s: Slot, e: Pte)
    requires e != NO_PTE
    ensures s in WithLeaf(m, s, e).leaves && WithLeaf(m, s, e).leaves[s] == e
  {
  }

  lemma RemappedTidy(held: Tally, m: Layout, s: Slot, e: Pte)
    requires HeldApart(held, m) && TablesUsed(m) && s in m.leaves && e != NO_PTE && (e.frame < MAX_FRAMES ==> held[e.frame] == 0)
    ensures HeldApart(held, WithLeaf(m, s, e)) && TablesUsed(WithLeaf(m, s, e))
  {
    TablesStayUsed(m, WithLeaf(m, s, e));
    hide TablesUsed;
  }

  lemma ResolvedTidy(x: Memory, s: Slot, y: Memory)
    requires Sound(x) && Resolved(x, s, y) && Tidy(x)
    ensures Tidy(y)
  {
    LeafFacts(x, s);
    hide TablesUsed, WithLeaf;
    if x.counts[x.m.leaves[s].frame] <= 1 {
      hide Sound;
      RemappedTidy(x.held, x.m, s, Pte(x.m.leaves[s].frame, OWNED));
    } else {
      var n :| n in FreeFrames(x.counts, x.reserved) && n < MAX_FRAMES && y == CopyStep(x, s, n);
      FreeUnheld(x, n);
      hide Sound;
      RemappedTidy(x.held, x.m, s, Pte(n, OWNED));
    }
  }

  /** paging_handle_cow_fault. It resolves exactly the faults on copy-on-write pages, unless a copy is
      needed and no frame is left. */
  method HandleCowFault(mem: AddressSpaces, dir: nat, faultAddr: nat) returns (resolved: bool)
    requires mem.Valid() && dir in mem.m.dirs && faultAddr < 0x1_0000_0000
    modifies mem, mem.ram, mem.pmm, mem.pmm.frameBitmap, mem.pmm.frameRefcount
    ensures mem.Valid()
    ensures resolved <==> Resolvable(old(mem.Now()), SlotOf(dir, faultAddr))
    ensures !resolved ==> mem.Now() == old(mem.Now())
    ensures resolved ==> Resolved(old(mem.Now()), SlotOf(dir, faultAddr), mem.Now())
  {
    hide Sound, ReclaimStep, CopyStep;
    var pdIndex, ptIndex := faultAddr / 0x40_0000, faultAddr / FRAME_SIZE % ENTRIES;
    ghost var x, s := mem.Now(), SlotOf(dir, faultAddr);
    AddressSplits(faultAddr);
    Walk(x, dir, s.page);
    FlagBits();
    if s in x.m.leaves { LeafFacts(x, s); Reachable(x, x.m.leaves[s].frame); }
    if !mem.Word(dir, pdIndex).Present() { return false; }
    var table := mem.Word(dir, pdIndex).frame;
    var pte := mem.Word(table, ptIndex);
    if !pte.Present() { return false; }
    if pte.flags & COW == 0 { return false; }
    var flags := pte.flags & 0xFFF & !COW;
    var refcount := mem.pmm.FrameRefcount(pte.frame);
    if refcount <= 1 {
      Reclaim(mem, s, table, ptIndex, pte.frame, flags);
      return true;
    }
    resolved := CopyOnFault(mem, s, table, ptIndex, pte.frame, flags);
  }

  /** The handler's first case: the frame has no other user, so write access comes back. */
  method Reclaim(mem: AddressSpaces, ghost s: Slot, table: nat, ptIndex: nat, frame: nat, flags: bv12)
    requires mem.Valid() && s in mem.m.leaves && ptIndex == s.page.pt < ENTRIES
    requires TableOf(s) in mem.m.tables && mem.m.tables[TableOf(s)] == table < IDENTITY_FRAMES
    requires frame == mem.m.leaves[s].frame < IDENTITY_FRAMES && (flags | RW) | PRESENT == OWNED
    requires mem.pmm.Counts()[frame] <= 1
    modifies mem, mem.ram
    ensures mem.Valid() && mem.Now() == ReclaimStep(old(mem.Now()), s)
  {
    hide Sound;
    ghost var x := mem.Now();
    ReclaimStepSound(x, s);
    mem.SetWord(table, ptIndex, Pte(frame, (flags | RW) | PRESENT));
    mem.m, mem.image := WithLeaf(mem.m, s, Pte(frame, OWNED)), Mapped(x.ram, x.image, s, Pte(frame, OWNED));
    assert mem.Now() == ReclaimStep(x, s);
  }

  /** The handler's second case: allocate, copy, drop the old frame, enter the new one. */
  method CopyOnFault(mem: AddressSpaces, ghost s: Slot, table: nat, ptIndex: nat, oldFrame: nat, flags: bv12) returns (resolved: bool)
    requires mem.Valid() && s in mem.m.leaves && ptIndex == s.page.pt < ENTRIES
    requires TableOf(s) in mem.m.tables && mem.m.tables[TableOf(s)] == table < IDENTITY_FRAMES
    requires oldFrame == mem.m.leaves[s].frame < IDENTITY_FRAMES && (flags | RW) | PRESENT == OWNED
    modifies mem, mem.ram, mem.pmm, mem.pmm.frameBitmap, mem.pmm.frameRefcount
    ensures mem.Valid()
    ensures resolved <==> old(mem.pmm.Free()) != {}
    ensures !resolved ==> mem.Now() == old(mem.Now())
    ensures resolved ==> exists n <- old(mem.pmm.Free()) :: n < MAX_FRAMES && mem.Now() == CopyStep(old(mem.Now()), s, n)
  {
    hide Sound;
    ghost var x := mem.Now();
    var n := AllocHeld(mem);
    if n == 0 { return false; }
    AllocStepSound(x, n);
    CopyStepSound(x, s, n);
    LeafFacts(x, s);
    Reachable(x, oldFrame);
    CopyPage(mem, n, oldFrame);
    Replace(mem, s, table, ptIndex, oldFrame, n, flags, x);
    return true;
  }

  /** The end of the second case: the old frame loses a reference and the copy takes its place. */
  method Replace(mem: AddressSpaces, ghost s: Slot, table: nat, ptIndex: nat, oldFrame: nat, n: nat, flags: bv12, ghost x: Memory)
    requires mem.Apart() && mem.pmm.Valid() && Sound(x) && s in x.m.leaves && n in FreeFrames(x.counts, x.reserved)
    requires oldFrame == x.m.leaves[s].frame < MAX_FRAMES && (flags | RW) | PRESENT == OWNED
    requires mem.Now() == AllocStep(x, n).(ram := x.ram[n := Page(Contents(x.ram[oldFrame]))])
    requires TableEntry(x.m, s.dir, s.page.pd).frame == table < IDENTITY_FRAMES && ptIndex == s.page.pt < ENTRIES
    requires Sound(CopyStep(x, s, n))
    modifies mem, mem.ram, mem.pmm, mem.pmm.frameBitmap, mem.pmm.frameRefcount
    ensures mem.Valid() && mem.Now() == CopyStep(x, s, n)
  {
    hide Sound;
    ghost var ram := x.ram[n := Page(Contents(x.ram[oldFrame]))];
    mem.pmm.FreeFrame(oldFrame);
    mem.SetWord(table, ptIndex, Pte(n, (flags | RW) | PRESENT));
    mem.held := x.held;
    mem.m, mem.image := WithLeaf(x.m, s, Pte(n, OWNED)), Mapped(ram, x.image, s, Pte(n, OWNED));
    assert mem.Now() == CopyStep(x, s, n);
  }

  /** pmm_alloc_frame for the kernel's own use: the caller holds the one reference. */
  method AllocHeld(mem: AddressSpaces) returns (n: nat)
    requires mem.Valid()
    modifies mem, mem.pmm, mem.pmm.frameBitmap, mem.pmm.frameRefcount
    ensures mem.Valid()
    ensures n == 0 ==> old(mem.pmm.Free()) == {} && mem.Now() == old(mem.Now())
    ensures n != 0 ==> n in old(mem.pmm.Free()) && n < MAX_FRAMES && mem.Now() == AllocStep(old(mem.Now()), n)
    ensures n != 0 ==> mem.pmm.Free() == old(mem.pmm.Free()) - {n} && forall g <- old(mem.pmm.Free()) :: n <= g
  {
    hide Sound;
    ghost var x := mem.Now();
    n := mem.pmm.AllocFrame();
    if n != 0 {
      AllocStepSound(x, n);
      mem.held := Hold(mem.held, n);
    }
  }

  /** One page of heap_extend: a frame, mapped at the end of the heap in place of what lies there. */
  method ExtendHeap(mem: AddressSpaces, heapEnd: nat) returns (n: nat)
    requires mem.Valid() && PageOf(heapEnd).pd < IDENTITY_TABLES
    modifies mem, mem.ram, mem.pmm, mem.pmm.frameBitmap, mem.pmm.frameRefcount
    ensures n == 0 ==> old(mem.pmm.Free()) == {} && mem.Now() == old(mem.Now()) && mem.Valid()
    ensures n != 0 ==> n in old(mem.pmm.Free()) && n < MAX_FRAMES
    ensures n != 0 ==>
      mem.Now() == KernelEntryStep(AllocStep(old(mem.Now()), n), PageOf(heapEnd).pd, PageOf(heapEnd).pt, Pte(n, KERNEL_FLAGS))
    ensures n != 0 ==> (mem.Valid() <==> heapEnd / FRAME_SIZE in mem.pmm.reserved || n == heapEnd / FRAME_SIZE)
    ensures old(Tidy(mem.Now())) ==> Tidy(mem.Now())
  {
    hide Sound, HeldApart, TablesUsed, FreeFrames;
    ghost var x := mem.Now();
    n := AllocHeld(mem);
    if n == 0 { return; }
    assert RW | PRESENT == KERNEL_FLAGS;
    if Tidy(x) { HeldTidy(x, n); }
    var mapped := mem.MapPage(n, heapEnd, RW);
  }

  lemma HeldTidy(x: Memory, n: nat)
    requires Sound(x) && Tidy(x) && n in FreeFrames(x.counts, x.reserved)
    ensures n < MAX_FRAMES && Tidy(AllocStep(x, n))
  {
    FreeUnheld(x, n);
    hide KernelHalf, Agrees, Balanced, CopyOnWrite, Shows, Uncounted, FreeFrames;
    UnusedHeld(x.held, x.m, n);
    hide HeldApart, TablesUsed, WellFormed, Unused;
  }

  // ---------------------------------------------------------------- what the processor does

  /** A user-mode translation: not mapped for the user, mapped read-only, or mapped writable. */
  datatype Translation = Missing | ReadOnly(frame: nat) | Writable(frame: nat)

  /** The page walk of a ring-3 access. Both levels must be present and allow the user. */
  method Translate(mem: AddressSpaces, dir: nat, virt: nat) returns (t: Translation)
    requires mem.Valid() && dir in mem.m.dirs && virt < 0x1_0000_0000
    ensures t.Missing? <==> SlotOf(dir, virt) !in mem.m.leaves
    ensures !t.Missing? ==> t.frame == mem.m.leaves[SlotOf(dir, virt)].frame < IDENTITY_FRAMES
    ensures !t.Missing? ==> (t.Writable? <==> mem.m.leaves[SlotOf(dir, virt)].flags == OWNED)
    ensures !t.Missing? ==> (t.ReadOnly? <==> mem.m.leaves[SlotOf(dir, virt)].flags == SHARED)
  {
    hide Sound;
    ghost var x, s := mem.Now(), SlotOf(dir, virt);
    AddressSplits(virt);
    Walk(x, dir, s.page);
    FlagBits();
    if s in x.m.leaves { LeafFacts(x, s); Reachable(x, x.m.leaves[s].frame); }
    var pde := mem.Word(dir, virt / 0x40_0000);
    if !pde.Present() || pde.flags & USER == 0 { return Missing; }
    var pte := mem.Word(pde.frame, virt / FRAME_SIZE % ENTRIES);
    if !pte.Present() || pte.flags & USER == 0 { return Missing; }
    if pde.flags & RW != 0 && pte.flags & RW != 0 { return Writable(pte.frame); }
    return ReadOnly(pte.frame);
  }

  /** A ring-3 load: the byte of the image, or a fault that halts the machine. */
  method Load(mem: AddressSpaces, dir: nat, virt: nat) returns (r: Option<bv8>)
    requires mem.Valid() && dir in mem.m.dirs && virt < 0x1_0000_0000
    ensures r.Some? <==> SlotOf(dir, virt) in mem.image
    ensures r.Some? ==> |mem.image[SlotOf(dir, virt)]| == FRAME_SIZE && r.value == mem.image[SlotOf(dir, virt)][OffsetOf(virt)]
  {
    hide Sound;
    ImageKeys(mem.Now());
    var t := Translate(mem, dir, virt);
    if t.Missing? { return None; }
    LeafFacts(mem.Now(), SlotOf(dir, virt));
    return Some(Contents(mem.ram[t.frame])[OffsetOf(virt)]);
  }

  /** A store that goes through: the page is mapped, and writable or made so by the fault handler. */
  ghost predicate Storable(x: Memory, s: Slot) {
    s in x.m.leaves && (x.m.leaves[s].flags == OWNED || Resolvable(x, s))
  }

  function Poke(image: Image, s: Slot, offset: nat, b: bv8): Image
    requires s in image
  {
    if offset < |image[s]| then image[s := image[s][offset := b]] else image
  }

  /** A ring-3 store: on a protection fault the handler runs and the store is tried again. It changes
      one byte of one page of one address space. */
  method Store(mem: AddressSpaces, dir: nat, virt: nat, b: bv8) returns (ok: bool)
    requires mem.Valid() && dir in mem.m.dirs && virt < 0x1_0000_0000
    modifies mem, mem.ram, mem.pmm, mem.pmm.frameBitmap, mem.pmm.frameRefcount
    ensures mem.Valid()
    ensures ok <==> Storable(old(mem.Now()), SlotOf(dir, virt))
    ensures !ok ==> mem.Now() == old(mem.Now())
    ensures ok ==> SlotOf(dir, virt) in old(mem.m.leaves)
    ensures ok ==> SlotOf(dir, virt) in old(mem.image) && mem.image == Poke(old(mem.image), SlotOf(dir, virt), OffsetOf(virt), b)
    ensures ok ==> mem.m.dirs == old(mem.m.dirs) && mem.m.tables == old(mem.m.tables) && mem.held == old(mem.held)
    ensures ok ==> mem.m.leaves.Keys == old(mem.m.leaves.Keys)
    ensures ok ==> |mem.pmm.Free()| >= |old(mem.pmm.Free())| - 1
    ensures old(Tidy(mem.Now())) ==> Tidy(mem.Now())
    ensures ok && old(mem.m.leaves[SlotOf(dir, virt)].flags == OWNED) ==>
      mem.m == old(mem.m) && mem.pmm.Counts() == old(mem.pmm.Counts())
    ensures forall d: nat :: Inherits(old(mem.m), mem.m, d)
    ensures forall d: nat :: d != dir ==> KeptAt(old(mem.m), mem.m, d)
  {
    hide Sound, Resolvable, Resolved, HeldApart, TablesUsed;
    ghost var x, s := mem.Now(), SlotOf(dir, virt);
    ImageKeys(x);
    FlagBits();
    var t := Translate(mem, dir, virt);
    if !t.Writable? {
      Unresolvable(x, s);
      var resolved := HandleCowFault(mem, dir, virt);
      if !resolved { return false; }
      ResolvedFacts(x, s, mem.Now());
      if Tidy(x) { ResolvedTidy(x, s, mem.Now()); }
      ResolvedInherits(x, s, mem.Now());
      hide Inherits, KeptAt;
      t := Translate(mem, dir, virt);
    }
    PutByte(mem, s, t.frame, OffsetOf(virt), b);
    return true;
  }

  lemma Unresolvable(x: Memory, s: Slot)
    ensures Resolvable(x, s) ==> s in x.m.leaves && x.m.leaves[s].flags == SHARED
  {
  }

  /** The byte write itself, to a page its program owns. */
  method PutByte(mem: AddressSpaces, ghost s: Slot, frame: nat, offset: nat, b: bv8)
    requires mem.Valid() && offset < FRAME_SIZE
    requires s in mem.m.leaves && mem.m.leaves[s] == Pte(frame, OWNED) && frame < IDENTITY_FRAMES
    modifies mem, mem.ram
    ensures mem.Valid() && s in old(mem.image) && mem.image == Poke(old(mem.image), s, offset, b)
    ensures mem.m == old(mem.m) && mem.held == old(mem.held)
  {
    hide Sound;
    ghost var x := mem.Now();
    LeafFacts(x, s);
    OwnedAlone(x, s);
    ghost var bytes := Contents(mem.ram[frame])[offset := b];
    DataStepSound(x, s, bytes);
    mem.ram[frame] := Page(Contents(mem.ram[frame])[offset := b]);
    mem.image := mem.image[s := bytes];
    assert mem.Now() == x.(ram := x.ram[frame := Page(bytes)], image := x.image[s := bytes]);
  }

  lemma OwnedAlone(x: Memory, s: Slot)
    requires Sound(x) && s in x.m.leaves && x.m.leaves[s].flags == OWNED
    ensures LeafUses(x.m, x.m.leaves[s].frame) == {s}
  {
    hide KernelHalf, Agrees, Balanced, Shows, Uncounted;
  }
}
