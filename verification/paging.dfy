/** Building address spaces, as kernel/paging.c does it: directories, page tables and user pages, by methods
    that update physical memory in place. Directories, tables and pages are named by their frame numbers. */
module Paging {
  import opened Pmm
  import opened PageTables

  // ---------------------------------------------------------------- steps built from smaller ones

  function SlotOf(dir: nat, virt: nat): Slot { Slot(dir, PageOf(virt)) }
  function TableOf(s: Slot): TableSlot { TableSlot(s.dir, s.page.pd) }

  predicate NeedsTable(m: Layout, s: Slot) { s.page.pd >= IDENTITY_TABLES && TableOf(s) !in m.tables }

  /** The caller's reference to a frame moves into a slot; an overwritten entry leaves its own behind. */
  function Handover(held: Tally, m: Layout, s: Slot, f: nat): Tally {
    var moved := if f < MAX_FRAMES && held[f] > 0 then held[f := held[f] - 1] else held;
    if s in m.leaves && m.leaves[s].frame < MAX_FRAMES then Hold(moved, m.leaves[s].frame) else moved
  }

  /** Memory after a user entry is written, with the page table made in frame t first if it is missing. */
  function MapStep(x: Memory, s: Slot, e: Pte, t: nat): Memory
    requires NeedsTable(x.m, s) ==> t < MAX_FRAMES
  {
    var y := if NeedsTable(x.m, s) then TableStep(x, TableOf(s), t) else x;
    LeafStep(y, s, e, y.counts, Handover(y.held, y.m, s, e.frame))
  }

  lemma MapStepSound(x: Memory, s: Slot, e: Pte, t: nat)
    requires Sound(x) && s.dir in x.m.dirs && IDENTITY_TABLES <= s.page.pd < ENTRIES && s.page.pt < ENTRIES
    requires e != NO_PTE && MayMap(x.m, s, e) && x.held[e.frame] > 0
    requires NeedsTable(x.m, s) ==> t in FreeFrames(x.counts, x.reserved)
    ensures Sound(MapStep(x, s, e, t))
    ensures MapStep(x, s, e, t).image == x.image[s := BytesAt(x.ram, e.frame)]
  {
    hide Sound, Handover;
    HeldIsCounted(x, e.frame);
    TablesInRam(x);
    if NeedsTable(x.m, s) {
      TableStepSound(x, TableOf(s), t);
    }
    var y := if NeedsTable(x.m, s) then TableStep(x, TableOf(s), t) else x;
    TablesInRam(y);
    HandoverMoves(y, s, e);
    LeafStepSound(y, s, e, y.counts, Handover(y.held, y.m, s, e.frame));
  }

  lemma TablesInRam(x: Memory)
    requires Sound(x)
    ensures forall k <- x.m.tables :: x.m.tables[k] < MAX_FRAMES
    ensures forall d <- x.m.dirs :: d < MAX_FRAMES
    ensures Uncounted(x.counts, x.reserved)
  {
    hide Agrees, Balanced, CopyOnWrite, Shows, KernelHalf;
  }

  lemma HeldIsCounted(x: Memory, f: nat)
    requires Sound(x) && f < MAX_FRAMES && x.held[f] > 0
    ensures x.counts[f] > 0
  {
    hide KernelHalf, Agrees, CopyOnWrite, Shows, Uncounted;
    assert x.counts[f] == Uses(x.m, f) + x.held[f];
  }

  lemma HandoverMoves(x: Memory, s: Slot, e: Pte)
    requires Sound(x) && e != NO_PTE && e.frame < MAX_FRAMES && x.held[e.frame] > 0
    ensures forall f: nat :: f < MAX_FRAMES ==>
      Handover(x.held, x.m, s, e.frame)[f] == x.held[f] + Refers(EntryAt(x.m, s), f) - Refers(e, f)
  {
    hide KernelHalf, Agrees, Balanced, Shows, Uncounted;
  }

  /** Taking one more outside reference to a frame in use. */
  function HoldStep(x: Memory, f: nat): Memory
    requires f < MAX_FRAMES && x.counts[f] < 255
  {
    x.(counts := x.counts[f := x.counts[f] + 1], held := Hold(x.held, f))
  }

  lemma HoldStepSound(x: Memory, f: nat)
    requires Sound(x) && f < MAX_FRAMES && f !in x.reserved && x.counts[f] < 255
    ensures Sound(HoldStep(x, f))
  {
    hide KernelHalf, Agrees, CopyOnWrite, Shows;
  }

  /** From x to y frames have only been handed out, the lowest first, and what is still free has not been written. */
  ghost predicate HandedOut(x: Memory, y: Memory) {
    && y.reserved == x.reserved && FreeFrames(y.counts, y.reserved) <= FreeFrames(x.counts, x.reserved)
    && (forall g <- FreeFrames(x.counts, x.reserved), h <- FreeFrames(y.counts, y.reserved) ::
          g !in FreeFrames(y.counts, y.reserved) ==> g < h)
    && (forall h <- FreeFrames(y.counts, y.reserved) :: h < MAX_FRAMES && y.ram[h] == x.ram[h])
  }

  lemma HandedOutOn(x: Memory, y: Memory, z: Memory)
    requires HandedOut(x, y) && HandedOut(y, z)
    ensures HandedOut(x, z)
  {
  }

  lemma LowestHandedOut(x: Memory, y: Memory, f: nat)
    requires f in FreeFrames(x.counts, x.reserved) && (forall g <- FreeFrames(x.counts, x.reserved) :: f <= g)
    requires y.reserved == x.reserved && FreeFrames(y.counts, y.reserved) == FreeFrames(x.counts, x.reserved) - {f}
    requires forall h <- FreeFrames(y.counts, y.reserved) :: h < MAX_FRAMES && y.ram[h] == x.ram[h]
    ensures HandedOut(x, y)
  {
  }

  /** The n-th free frame, counting from 0 at the lowest. */
  ghost predicate NthFree(x: Memory, n: nat, f: nat) {
    f in FreeFrames(x.counts, x.reserved) && |set g <- FreeFrames(x.counts, x.reserved) | g < f| == n
  }

  /** What is handed out next is as many free frames up as have been handed out. */
  lemma NextIsNth(x: Memory, y: Memory, f: nat)
    requires HandedOut(x, y) && f in FreeFrames(y.counts, y.reserved) && (forall g <- FreeFrames(y.counts, y.reserved) :: f <= g)
    ensures |FreeFrames(y.counts, y.reserved)| <= |FreeFrames(x.counts, x.reserved)|
    ensures NthFree(x, |FreeFrames(x.counts, x.reserved)| - |FreeFrames(y.counts, y.reserved)|, f)
    ensures f < MAX_FRAMES && y.ram[f] == x.ram[f]
  {
    var before, now := FreeFrames(x.counts, x.reserved), FreeFrames(y.counts, y.reserved);
    hide FreeFrames;
    var below := set g <- before | g < f;
    assert below == before - now;
    assert before == below + now && below !! now;
  }

  /** The flag arithmetic of fork: write access stripped, the copy-on-write bit set. */
  lemma CowFlags(flags: bv12)
    requires flags == OWNED || flags == SHARED
    ensures ((((flags & 0xFFF & !PRESENT) & !RW) | COW) & 0xFFF) | PRESENT == SHARED
    ensures (((flags & 0xFFF & !PRESENT) & !RW) | COW) | PRESENT == SHARED
  {
  }

  lemma PresentBit(flags: bv12)
    ensures flags | PRESENT != 0 && (flags | PRESENT) & PRESENT != 0
  {
  }

  lemma FlagBits()
    ensures OWNED & PRESENT != 0 && OWNED & RW != 0 && OWNED & USER != 0 && OWNED & COW == 0
    ensures SHARED & PRESENT != 0 && SHARED & RW == 0 && SHARED & USER != 0 && SHARED & COW != 0
    ensures KERNEL_FLAGS & PRESENT != 0 && KERNEL_FLAGS & USER == 0 && KERNEL_FLAGS & COW == 0
    ensures NO_PTE.flags & PRESENT == 0
    ensures (SHARED & 0xFFF & !COW) | RW | PRESENT == OWNED
  {
  }

  /** The kernel's directory once the identity map is set up. */
  function BootDirectory(tables: nat): seq<Pte> {
    seq(ENTRIES, i requires 0 <= i < ENTRIES => if i < IDENTITY_TABLES then Pte(tables + i, KERNEL_FLAGS) else NO_PTE)
  }

  /** The first n tables of the identity map are written. */
  ghost predicate TablesWritten(ram: Ram, tables: nat, n: nat)
    requires tables + n <= MAX_FRAMES
  {
    forall f, j :: tables <= f < tables + n && 0 <= j < ENTRIES ==>
      Entries(ram[f])[j] == Pte((f - tables) * ENTRIES + j, KERNEL_FLAGS)
  }

  function IdentityTable(t: nat): (entries: seq<Pte>)
    ensures |entries| == ENTRIES
  {
    seq(ENTRIES, j requires 0 <= j < ENTRIES => Pte(t * ENTRIES + j, KERNEL_FLAGS))
  }

  lemma NoTableWritten(ram: Ram, tables: nat)
    requires tables <= MAX_FRAMES
    ensures TablesWritten(ram, tables, 0)
  {
  }

  lemma OneTableWritten(ram: Ram, tables: nat, t: nat)
    requires tables + t < MAX_FRAMES && TablesWritten(ram, tables, t)
    ensures TablesWritten(ram[tables + t := Table(IdentityTable(t))], tables, t + 1)
  {
  }

  lemma BootKernelHalf(ram: Ram, reserved: set<nat>, tables: nat)
    requires tables + IDENTITY_TABLES <= IDENTITY_FRAMES && TablesWritten(ram, tables, IDENTITY_TABLES)
    requires forall f: nat :: IDENTITY_FRAMES <= f < MAX_FRAMES ==> f in reserved
    requires forall t: nat :: tables <= t < tables + IDENTITY_TABLES ==> t in reserved
    ensures IdentityMap(ram, BootDirectory(tables)) && KernelHalf(ram, BootDirectory(tables), reserved)
  {
    var kernel := BootDirectory(tables);
    forall i, j | 0 <= i < IDENTITY_TABLES && 0 <= j < ENTRIES
      ensures Entries(ram[kernel[i].frame])[j] == Pte(i * ENTRIES + j, KERNEL_FLAGS)
    {
      assert Entries(ram[tables + i])[j] == Pte((tables + i - tables) * ENTRIES + j, KERNEL_FLAGS);
    }
  }

  class AddressSpaces {
    const pmm: FrameAllocator
    const ram: array<Frame>
    const pageDirectory: seq<Pte>  // the kernel's own directory, fixed once paging is up
    ghost var m: Layout
    ghost var held: Tally
    ghost var image: Image

    ghost predicate Apart()
      reads this, pmm
    {
      && ram as object != pmm.frameBitmap && ram as object != pmm.frameRefcount
      && pmm.frameBitmap as object != pmm.frameRefcount
      && ram.Length == MAX_FRAMES && pmm.frameRefcount.Length == MAX_FRAMES
    }

    ghost function Now(): Memory
      reads this, pmm, pmm.frameRefcount, ram
      requires Apart()
    {
      Memory(ram[..], pageDirectory, pmm.reserved, pmm.Counts(), held, m, image)
    }

    ghost predicate Valid()
      reads this, pmm, pmm.frameBitmap, pmm.frameRefcount, ram
    {
      Apart() && pmm.Valid() && Sound(Now())
    }

    /** paging_init: identity-maps the first 64 MiB with the sixteen static tables that start at frame
        `tables`. No address space exists yet; every reference there is counts as held elsewhere. */
    constructor (pmm: FrameAllocator, ram: array<Frame>, tables: nat)
      requires pmm.Valid() && ram.Length == MAX_FRAMES
      requires ram as object != pmm.frameBitmap && ram as object != pmm.frameRefcount
      requires pmm.frameBitmap as object != pmm.frameRefcount
      requires forall f: nat :: IDENTITY_FRAMES <= f < MAX_FRAMES ==> f in pmm.reserved
      requires tables + IDENTITY_TABLES <= IDENTITY_FRAMES
      requires forall t: nat :: tables <= t < tables + IDENTITY_TABLES ==> t in pmm.reserved
      modifies ram
      ensures Valid() && this.pmm == pmm && this.ram == ram
      ensures m == Layout({}, map[], map[], map[]) && image == map[]
      ensures held == AsTally(pmm.Counts()) && Tidy(Now()) && IdentityMap(ram[..], pageDirectory)
    {
      this.pmm, this.ram := pmm, ram;
      this.pageDirectory := BootDirectory(tables);
      this.m, this.image := Layout({}, map[], map[], map[]), map[];
      this.held := AsTally(pmm.Counts());
      new;
      hide Sound, BootDirectory, KernelHalf, IdentityMap, Tidy, AsTally, TablesWritten;
      FillTables(tables);
      BootKernelHalf(ram[..], pmm.reserved, tables);
      SoundAtBoot(ram[..], pageDirectory, pmm.reserved, pmm.Counts());
    }

    /** The sixteen tables of the identity map, one after the other. */
    method FillTables(tables: nat)
      requires ram.Length == MAX_FRAMES && tables + IDENTITY_TABLES <= IDENTITY_FRAMES
      modifies ram
      ensures TablesWritten(ram[..], tables, IDENTITY_TABLES)
    {
      NoTableWritten(ram[..], tables);
      hide TablesWritten, IdentityTable;
      for t := 0 to IDENTITY_TABLES
        invariant TablesWritten(ram[..], tables, t)
      {
        OneTableWritten(ram[..], tables, t);
        FillTable(tables + t, IdentityTable(t));
      }
    }

    /** An entry read through the identity map. */
    function Word(frame: nat, i: nat): Pte
      reads ram
      requires ram.Length == MAX_FRAMES && frame < IDENTITY_FRAMES && i < ENTRIES
    {
      Entries(ram[frame])[i]
    }

    /** An entry written through the identity map. */
    method SetWord(frame: nat, i: nat, e: Pte)
      requires ram.Length == MAX_FRAMES && frame < IDENTITY_FRAMES && i < ENTRIES
      modifies ram
      ensures ram[..] == WithEntry(old(ram[..]), frame, i, e)
    {
      ram[frame] := Table(Entries(ram[frame])[i := e]);
    }

    /** Writes a whole table entry by entry. */
    method FillTable(frame: nat, entries: seq<Pte>)
      requires ram.Length == MAX_FRAMES && frame < IDENTITY_FRAMES && |entries| == ENTRIES
      modifies ram
      ensures ram[..] == old(ram[..])[frame := Table(entries)]
    {
      for i := 0 to ENTRIES
        invariant i > 0 ==> ram[frame].Table? && |ram[frame].entries| == ENTRIES && ram[frame].entries[..i] == entries[..i]
        invariant forall f: nat :: f < MAX_FRAMES && f != frame ==> ram[f] == old(ram[f])
      {
        ram[frame] := Table(Entries(ram[frame])[i := entries[i]]);
        assert entries[..i + 1] == entries[..i] + [entries[i]];
      }
      assert ram[frame].entries == entries;
    }

    /** paging_map_page: rewrites one entry of the kernel's own tables, as the heap does for the pages it grows by.
        Addresses without a kernel table are refused. The kernel still finds every frame that can be handed out
        exactly if none lies at this address, unless it maps that frame to itself. */
    method MapPage(frame: nat, virt: nat, flags: bv12) returns (ok: bool)
      requires Valid() && virt < 0x1_0000_0000
      modifies ram
      ensures ok <==> PageOf(virt).pd < IDENTITY_TABLES
      ensures !ok ==> Now() == old(Now())
      ensures ok ==> Now() == KernelEntryStep(old(Now()), PageOf(virt).pd, PageOf(virt).pt, Pte(frame, flags | PRESENT))
      ensures ok ==> (Valid() <==>
        flags | PRESENT == KERNEL_FLAGS && (virt / FRAME_SIZE in pmm.reserved || frame == virt / FRAME_SIZE))
    {
      hide Sound, KernelHalf;
      var pdIndex, ptIndex := virt / 0x40_0000, virt / FRAME_SIZE % ENTRIES;
      if pdIndex >= IDENTITY_TABLES { return false; }
      ghost var x, e := Now(), Pte(frame, flags | PRESENT);
      KernelEntryStepSound(x, pdIndex, ptIndex, e);
      SetWord(pageDirectory[pdIndex].frame, ptIndex, Pte(frame, flags | PRESENT));
      assert Now() == KernelEntryStep(x, pdIndex, ptIndex, e);
      assert pdIndex * ENTRIES + ptIndex == virt / FRAME_SIZE;
      return true;
    }

    /** paging_clone_kernel_directory: a directory with the kernel's entries and no user pages. */
    method CloneKernelDirectory() returns (dir: nat)
      requires Valid() && pmm.Free() != {}
      modifies this, ram, pmm, pmm.frameBitmap, pmm.frameRefcount
      ensures Valid() && dir in old(pmm.Free()) && dir !in old(m.dirs) && forall g <- old(pmm.Free()) :: dir <= g
      ensures Now() == DirStep(old(Now()), dir) && pmm.Free() == old(pmm.Free()) - {dir}
    {
      hide Agrees, Balanced, CopyOnWrite, Shows, Uncounted;
      dir := pmm.AllocFrame();
      ghost var x := old(Now());
      DirStepSound(x, dir);
      FillTable(dir, pageDirectory);
      m := WithDir(m, dir);
      assert Now() == DirStep(x, dir);
    }

    /** A fresh, empty page table, entered in a directory. */
    method NewTable(dir: nat, pd: nat) returns (table: nat)
      requires Valid() && dir in m.dirs && IDENTITY_TABLES <= pd < ENTRIES && TableSlot(dir, pd) !in m.tables
      requires pmm.Free() != {}
      modifies this, ram, pmm, pmm.frameBitmap, pmm.frameRefcount
      ensures Valid() && table in old(pmm.Free()) && forall g <- old(pmm.Free()) :: table <= g
      ensures Now() == TableStep(old(Now()), TableSlot(dir, pd), table) && pmm.Free() == old(pmm.Free()) - {table}
    {
      hide KernelHalf, Agrees, Balanced, CopyOnWrite, Shows, Uncounted;
      ghost var x := old(Now());
      Reachable(x, dir);
      table := pmm.AllocFrame();
      TableStepSound(x, TableSlot(dir, pd), table);
      Reachable(TableStep(x, TableSlot(dir, pd), table), table);
      FillTable(table, ZeroTable());
      SetWord(dir, pd, Pte(table, OWNED));
      m := WithTable(m, TableSlot(dir, pd), table);
      assert Now() == TableStep(x, TableSlot(dir, pd), table);
    }

    /** The page table behind a directory entry, made first when it is missing. */
    method TableFor(dir: nat, pd: nat) returns (table: nat)
      requires Valid() && dir in m.dirs && IDENTITY_TABLES <= pd < ENTRIES
      requires TableSlot(dir, pd) !in m.tables ==> pmm.Free() != {}
      modifies this, ram, pmm, pmm.frameBitmap, pmm.frameRefcount
      ensures Valid() && TableSlot(dir, pd) in m.tables && m.tables[TableSlot(dir, pd)] == table < IDENTITY_FRAMES
      ensures TableSlot(dir, pd) in old(m).tables ==> Now() == old(Now()) && pmm.Free() == old(pmm.Free())
      ensures TableSlot(dir, pd) !in old(m).tables ==> forall g <- old(pmm.Free()) :: table <= g
      ensures TableSlot(dir, pd) !in old(m).tables ==>
        table in old(pmm.Free()) && pmm.Free() == old(pmm.Free()) - {table} &&
        Now() == TableStep(old(Now()), TableSlot(dir, pd), table)
    {
      hide Sound;
      TablesInRam(Now());
      Walk(Now(), dir, VPage(pd, 0));
      FlagBits();
      if !Word(dir, pd).Present() {
        table := NewTable(dir, pd);
        Reachable(Now(), table);
      } else {
        table := Word(dir, pd).frame;
      }
    }

    /** paging_map_user_page: writes one user entry, making the page table first when it is missing.
        The caller must hold a reference to the frame; the entry takes it over. Kernel addresses are
        refused. */
    method MapUserPage(dir: nat, frame: nat, virt: nat, flags: bv12) returns (ok: bool, ghost table: nat)
      requires Valid() && virt < 0x1_0000_0000 && dir in m.dirs
      requires frame < MAX_FRAMES && held[frame] > 0 && MayMap(m, SlotOf(dir, virt), Pte(frame, flags | PRESENT))
      requires NeedsTable(m, SlotOf(dir, virt)) ==> pmm.Free() != {}
      modifies this, ram, pmm, pmm.frameBitmap, pmm.frameRefcount
      ensures Valid()
      ensures ok <==> PageOf(virt).pd >= IDENTITY_TABLES
      ensures !ok ==> Now() == old(Now())
      ensures ok && old(NeedsTable(m, SlotOf(dir, virt))) ==> table in old(pmm.Free()) && pmm.Free() == old(pmm.Free()) - {table}
      ensures ok && old(NeedsTable(m, SlotOf(dir, virt))) ==> forall g <- old(pmm.Free()) :: table <= g
      ensures ok && !old(NeedsTable(m, SlotOf(dir, virt))) ==> pmm.Free() == old(pmm.Free())
      ensures ok ==> Now() == MapStep(old(Now()), SlotOf(dir, virt), Pte(frame, flags | PRESENT), table)
    {
      hide Sound, Handover;
      table := 0;
      var pdIndex, ptIndex := virt / 0x40_0000, virt / FRAME_SIZE % ENTRIES;
      if pdIndex < IDENTITY_TABLES { return false, 0; }
      ghost var x, s, e := old(Now()), SlotOf(dir, virt), Pte(frame, flags | PRESENT);
      AddressSplits(virt);
      PresentBit(flags);
      var t := TableFor(dir, pdIndex);
      ghost var y := Now();
      MapStepSound(x, s, e, t);
      SetWord(t, ptIndex, Pte(frame, flags | PRESENT));
      held, m, image := Handover(y.held, y.m, s, frame), WithLeaf(y.m, s, e), Mapped(y.ram, y.image, s, e);
      assert Now() == MapStep(x, s, e, t);
      return true, t;
    }
  }
}
