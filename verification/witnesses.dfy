/** Where a property fails, an input at which it does. */
module Witnesses {
  import opened Options
  import opened Bytes
  import opened Pmm
  import opened PageTables
  import opened Paging
  import opened Fork
  import opened UserAccess
  import opened Elf
  import opened Accounting
  import opened Teardown
  import opened Processes
  import opened Conservation
  import opened Limits
  import opened KernelStores
  import opened ElfBounds

  // ---------------------------------------------------------------- a page shared by many

  /** A machine whose kernel, with its sixteen tables, takes the frames below 272. */
  const TABLES := 256
  const KERNEL_END := 272

  function BootRam(): Ram {
    seq(MAX_FRAMES, f requires 0 <= f < MAX_FRAMES =>
      if TABLES <= f < KERNEL_END
      then Table(seq(ENTRIES, j requires 0 <= j < ENTRIES => Pte((f - TABLES) * ENTRIES + j, KERNEL_FLAGS)))
      else Page(seq(FRAME_SIZE, _ => 0)))
  }

  function KernelFrames(): set<nat> { FramesBelow(KERNEL_END) + (FramesBelow(MAX_FRAMES) - FramesBelow(IDENTITY_FRAMES)) }

  function NoCounts(): Counts { seq(MAX_FRAMES, _ => 0) }

  function BootMemory(): Memory {
    Memory(BootRam(), BootDirectory(TABLES), KernelFrames(), NoCounts(), AsTally(NoCounts()), Layout({}, map[], map[], map[]), map[])
  }

  lemma BootMemorySound()
    ensures Sound(BootMemory()) && Tidy(BootMemory())
    ensures forall f: nat :: KERNEL_END <= f < IDENTITY_FRAMES ==> f in FreeFrames(BootMemory().counts, KernelFrames())
  {
    hide BootDirectory, KernelHalf;
    BootTables();
    BootKernelHalf(BootRam(), KernelFrames(), TABLES);
    SoundAtBoot(BootRam(), BootDirectory(TABLES), KernelFrames(), NoCounts());
    hide Sound, BootRam;
  }

  lemma BootTables()
    ensures TablesWritten(BootRam(), TABLES, IDENTITY_TABLES)
  {
  }

  const PARENT := 280  // the frames of a directory, its table, and the page it maps
  const TABLE := 281
  const SHARED_FRAME := 282
  const FIRST_CHILD := 1000

  function SharedPage(): VPage { VPage(IDENTITY_TABLES, 0) }
  function ParentSlot(): Slot { Slot(PARENT, SharedPage()) }
  function ZeroBytes(): seq<bv8> { seq(FRAME_SIZE, _ => 0) }

  /** One address space maps a page of zeros, and n more share it. */
  ghost predicate SharedBy(x: Memory, n: nat) {
    && Sound(x) && Tidy(x) && x.reserved == KernelFrames()
    && ParentSlot() in x.m.leaves && x.m.leaves[ParentSlot()].frame == SHARED_FRAME && x.counts[SHARED_FRAME] == n + 1
    && ParentSlot() in x.image && x.image[ParentSlot()] == ZeroBytes()
    && (n > 0 ==> Slot(FIRST_CHILD, SharedPage()) in x.m.leaves && x.m.leaves[Slot(FIRST_CHILD, SharedPage())].frame == SHARED_FRAME)
    && (forall f: nat :: FIRST_CHILD + 2 * n <= f < 2 * FIRST_CHILD ==> f in FreeFrames(x.counts, x.reserved))
  }

  lemma FirstPage() returns (x: Memory)
    ensures SharedBy(x, 0)
  {
    hide Sound, Tidy, Private, BootRam, BootDirectory, KernelFrames, FreeFrames, PageStep;
    var x0, s := BootMemory(), ParentSlot();
    var x1 := DirStep(x0, PARENT);
    BootMemorySound();
    DirStepSound(x0, PARENT);
    DirStepTidy(x0, PARENT);
    NewDirectoryPrivate(x0, PARENT);
    OneFreeLess(x0.counts, x0.reserved, PARENT);
    x := PageStep(x1, s, SHARED_FRAME, Page(ZeroBytes()), TABLE);
    PageStepSound(x1, s, SHARED_FRAME, Page(ZeroBytes()), TABLE);
    PageStepSettled(x1, s, SHARED_FRAME, Page(ZeroBytes()), TABLE);
    PageStepFacts(x1, s, SHARED_FRAME, Page(ZeroBytes()), TABLE);
    OneFreeLess(x1.counts, x1.reserved, SHARED_FRAME);
    OneFreeLess(x1.counts[SHARED_FRAME := 1], x1.reserved, TABLE);
  }

  lemma OneFreeLess(counts: Counts, reserved: set<nat>, f: nat)
    requires f in FreeFrames(counts, reserved)
    ensures FreeFrames(counts[f := 1], reserved) == FreeFrames(counts, reserved) - {f}
  {
    FreeAfterUpdate(counts, reserved, f, 1);
  }

  lemma NewDirectoryPrivate(x: Memory, d: nat)
    requires Sound(x) && d < MAX_FRAMES && d !in x.m.dirs
    ensures Private(DirStep(x, d).m, d)
  {
    NothingInNewDirectory(x, d);
    hide Sound;
  }

  lemma PageStepFacts(x: Memory, s: Slot, n: nat, frame: Frame, t: nat)
    requires n < MAX_FRAMES && t < MAX_FRAMES && NeedsTable(x.m, s)
    ensures var y := PageStep(x, s, n, frame, t);
      && y.counts == x.counts[n := 1][t := 1] && y.reserved == x.reserved
      && s in y.m.leaves && y.m.leaves[s] == Pte(n, OWNED)
  {
  }

  lemma OneMoreSharer(x: Memory, n: nat) returns (z: Memory)
    requires SharedBy(x, n) && n < 254
    ensures SharedBy(z, n + 1)
  {
    hide Sound, Tidy, KernelFrames, FreeFrames, ShareStep;
    var s, c := ParentSlot(), FIRST_CHILD + 2 * n;
    var y := DirStep(x, c);
    DirStepSound(x, c);
    DirStepTidy(x, c);
    NothingInNewDirectory(x, c);
    OneFreeLess(x.counts, x.reserved, c);
    TablesBelong(x, s);
    Reachable(x, SHARED_FRAME);
    z := ShareStep(y, s, c, c + 1);
    ShareStepSound(y, s, c, c + 1);
    ShareStepTidy(y, s, c, c + 1);
    SameKernel(y, s, c, c + 1);
    FreeAfterShare(y.counts, y.reserved, SHARED_FRAME, n + 2, c + 1);
  }

  lemma {:induction false} ManySharers(n: nat) returns (x: Memory)
    requires n <= 254
    ensures SharedBy(x, n)
  {
    hide SharedBy;
    if n == 0 {
      x := FirstPage();
    } else {
      x := ManySharers(n - 1);
      x := OneMoreSharer(x, n - 1);
    }
  }

  /** Two programs share a page; the kernel stores a byte through one program's mapping, and the other program's memory
      changes too. */
  lemma KernelStoreSeen() returns (x: Memory, s: Slot)
    ensures Sound(x) && Tidy(x) && s in x.m.leaves
    ensures x.image.Keys == x.m.leaves.Keys && forall u <- x.image :: |x.image[u]| == FRAME_SIZE
    ensures KernelPoked(x, s, 0, 1) != Poke(x.image, s, 0, 1)
  {
    hide Sound, Tidy, KernelPoked, Poke, FreeFrames, KernelFrames;
    x := ManySharers(1);
    s := ParentSlot();
    var other := Slot(FIRST_CHILD, SharedPage());
    assert other in LeafUses(x.m, SHARED_FRAME) && other != s;
    KernelStoreIsolated(x, s, 0, 1);
  }

  lemma ManyMappers(x: Memory)
    requires SharedBy(x, 254)
    ensures |LeafUses(x.m, SHARED_FRAME)| == 255 && SHARED_FRAME !in x.reserved && Balanced(x.counts, x.held, x.m)
  {
    Reachable(x, SHARED_FRAME);
    TidyCounts(x);
    assert ParentSlot() in LeafUses(x.m, SHARED_FRAME);
    hide KernelHalf, Agrees, CopyOnWrite, Shows, Uncounted, Tidy, KernelFrames, Balanced, FreeFrames;
  }

  /** A page is shared by 255 programs; one more reference makes its 8-bit count zero, and the frame can be handed out. */
  lemma FullCount() returns (x: Memory, f: nat)
    ensures f < MAX_FRAMES && x.counts[f] == |LeafUses(x.m, f)| == 255
    ensures !Balanced(x.counts[f := 0], Hold(x.held, f), x.m) && f in FreeFrames(x.counts[f := 0], x.reserved)
    ensures Sound(x) && Tidy(x)
  {
    hide Sound, Tidy, KernelFrames, Balanced, LeafUses;
    x := ManySharers(254);
    f := SHARED_FRAME;
    ManyMappers(x);
    CountRoom(x.counts, x.held, x.m, f);
  }

  // ---------------------------------------------------------------- the heap over a frame in use

  /** The heap's first page lies at frame 1024, which the memory map may well offer. Mapping another frame there leaves
      the kernel unable to reach frame 1024, though it can still be handed out. */
  lemma HeapOverFrame() returns (x: Memory, n: nat)
    ensures Sound(x) && Tidy(x) && n in FreeFrames(x.counts, x.reserved) && 1024 in FreeFrames(x.counts, x.reserved)
    ensures n < MAX_FRAMES && PageOf(0x40_0000) == VPage(1, 0) && |x.kernel| == ENTRIES
    ensures !Sound(KernelEntryStep(AllocStep(x, n), 1, 0, Pte(n, KERNEL_FLAGS)))
  {
    hide Sound, Tidy, BootRam, BootDirectory, KernelFrames, FreeFrames, KernelEntryStep;
    x, n := BootMemory(), KERNEL_END;
    BootMemorySound();
    AllocStepSound(x, n);
    KernelEntryStepSound(AllocStep(x, n), 1, 0, Pte(n, KERNEL_FLAGS));
    KernelEntries(x);
    NotReserved(x, 1024);
  }

  lemma KernelEntries(x: Memory)
    requires Sound(x)
    ensures |x.kernel| == ENTRIES
  {
    KernelSize(x.ram, x.kernel, x.reserved);
  }

  lemma NotReserved(x: Memory, f: nat)
    requires f in FreeFrames(x.counts, x.reserved)
    ensures f !in x.reserved
  {
  }

  // ---------------------------------------------------------------- an ELF file with overlapping pages

  /** A 32-bit ELF file of two program headers, each a segment of one byte at 0x4000000. */
  function OverlappingFile(): seq<bv8> { seq(116, i requires 0 <= i < 116 => OverlappingByte(i)) }

  function OverlappingByte(i: nat): bv8 {
    if i == 0 then 0x7F else if i == 1 then 0x45 else if i == 2 then 0x4C else if i == 3 then 0x46 else if i == 4 then 1
    else if i == 28 then 52 else if i == 44 then 2
    else if i == 52 || i == 84 then 1 else if i == 63 || i == 95 then 4 else if i == 72 || i == 104 then 1 else 0
  }

  function OneByte(): Segment { Segment(PT_LOAD, 0, 0x400_0000, 0, 1) }

  /** The same bytes, from the headers on, as numbers. */
  function HeaderByte(i: nat): nat {
    if i == 28 then 52 else if i == 44 then 2
    else if i == 52 || i == 84 then 1 else if i == 63 || i == 95 then 4 else if i == 72 || i == 104 then 1 else 0
  }

  lemma OverlappingAt(i: nat)
    requires 5 <= i < 116
    ensures FileByte(OverlappingFile(), i) as nat == HeaderByte(i)
  {
  }

  lemma OverlappingWord(at: nat)
    requires 5 <= at <= 112
    ensures Elf.Le16(OverlappingFile(), at) == HeaderByte(at) + 0x100 * HeaderByte(at + 1)
    ensures Elf.Le32(OverlappingFile(), at) ==
      HeaderByte(at) + 0x100 * HeaderByte(at + 1) + 0x1_0000 * HeaderByte(at + 2) + 0x100_0000 * HeaderByte(at + 3)
  {
    hide OverlappingFile, FileByte, HeaderByte;
    OverlappingAt(at);
    OverlappingAt(at + 1);
    OverlappingAt(at + 2);
    OverlappingAt(at + 3);
  }

  lemma OverlappingHeader(i: nat)
    requires i < 2
    ensures SegmentAt(OverlappingFile(), i) == OneByte()
  {
    hide OverlappingFile, Elf.Le32;
    OverlappingWord(28);
    var at := 52 + 32 * i;
    assert Elf.Le32(OverlappingFile(), 28) + 32 * i == at && (at == 52 || at == 84);
    HeaderWord(at, 1);
    HeaderWord(at + 4, 0);
    HeaderWord(at + 8, 0x400_0000);
    HeaderWord(at + 16, 0);
    HeaderWord(at + 20, 1);
  }

  lemma HeaderWord(at: nat, word: nat)
    requires 5 <= at <= 112
    requires word == HeaderByte(at) + 0x100 * HeaderByte(at + 1) + 0x1_0000 * HeaderByte(at + 2) + 0x100_0000 * HeaderByte(at + 3)
    ensures Elf.Le32(OverlappingFile(), at) == word
  {
    hide *;
    OverlappingWord(at);
  }

  lemma OverlappingMagic()
    ensures IsElf32(OverlappingFile()) && SegmentCount(OverlappingFile()) == 2
  {
    OverlappingWord(44);
  }

  lemma OverlapLeaks(image: Image, dir: nat)
    requires forall s <- image :: s.dir != dir
    ensures var elf := OverlappingFile(); var pages := PagesToLoad(elf, SegmentCount(elf));
      IsElf32(elf) && |pages| == 2 && !PagesDistinct(pages) && !NoLeaks(image, dir, pages)
  {
    hide OverlappingFile, SegmentAt, SegmentCount, IsElf32, PageImage, NoLeaks;
    var elf, seg := OverlappingFile(), OneByte();
    OverlappingMagic();
    OverlappingHeader(0);
    OverlappingHeader(1);
    assert PageCount(seg) == 1 && PageAddress(seg, 0) == 0x400_0000;
    hide PageCount, PageAddress, OneByte;
    var pages := PagesToLoad(elf, 2);
    assert PagesToLoad(elf, 1) == SegmentPages(elf, seg);
    assert pages == SegmentPages(elf, seg) + SegmentPages(elf, seg);
    assert pages[0].virt == 0x400_0000 && pages[1].virt == 0x400_0000;
    LeakFree(image, dir, pages);
  }

  // ---------------------------------------------------------------- a file that is no program

  /** The run command on a file that is no ELF file, wherever a frame is free: it is refused, a frame is gone, and a directory
      is nobody's. */
  method RunNoElf(processes: ProcessTable, elf: seq<bv8>) returns (r: Option<Event>)
    requires processes.Valid() && processes.mem.pmm.Free() != {} && NoElfInside(elf)
    modifies processes, processes.mem, processes.mem.ram
    modifies processes.mem.pmm, processes.mem.pmm.frameBitmap, processes.mem.pmm.frameRefcount
    ensures r == Some(Refused) && processes.Valid() && processes.Now().View() == old(processes.Now()).View()
    ensures |processes.mem.pmm.Free()| == |old(processes.mem.pmm.Free())| - 1
    ensures |Ownerless(processes.Now())| == |Ownerless(old(processes.Now()))| + 1
  {
    NoElf(elf);
    CostsOne(elf);
    hide AtRest, Stepped, Ownerless, ViewOf, FramesToBuild, IsElf32, NoElfInside;
    ghost var a := processes.Now();
    r := processes.Spawn(elf);
    SteppedAllowed(a, SpawnOp(elf), r.value, processes.Now());
    FailedRunCosts(a, elf, r.value, processes.Now());
  }

  lemma CostsOne(elf: seq<bv8>)
    requires !IsElf32(elf)
    ensures FramesToBuild(elf) == 1
  {
  }

  // ---------------------------------------------------------------- a file that reaches past its end

  /** A 32-bit ELF file of 84 bytes with one segment: one byte, at offset 84. */
  function CutByte(i: nat): bv8 {
    if i == 0 then 0x7F else if i == 1 then 0x45 else if i == 2 then 0x4C else if i == 3 then 0x46 else if i == 4 then 1
    else if i == 28 then 52 else if i == 44 then 1 else if i == 52 then 1 else if i == 56 then 84 else if i == 63 then 4
    else if i == 68 || i == 72 then 1 else 0
  }

  function CutFile(): seq<bv8> { seq(84, i requires 0 <= i < 84 => CutByte(i)) }

  lemma CutWord(b: bv8, at: nat)
    requires at <= 80
    ensures Elf.Le16(CutFile() + [b], at) == CutByte(at) as nat + 0x100 * CutByte(at + 1) as nat
    ensures Elf.Le32(CutFile() + [b], at) == CutByte(at) as nat + 0x100 * CutByte(at + 1) as nat +
      0x1_0000 * CutByte(at + 2) as nat + 0x100_0000 * CutByte(at + 3) as nat
  {
    var elf := CutFile() + [b];
    assert FileByte(elf, at) == CutByte(at) && FileByte(elf, at + 1) == CutByte(at + 1);
    assert FileByte(elf, at + 2) == CutByte(at + 2) && FileByte(elf, at + 3) == CutByte(at + 3);
    hide CutFile, CutByte, FileByte;
  }

  lemma CutHeader(b: bv8)
    ensures IsElf32(CutFile() + [b]) && SegmentCount(CutFile() + [b]) == 1
    ensures SegmentAt(CutFile() + [b], 0) == Segment(PT_LOAD, 84, 0x400_0000, 1, 1)
  {
    CutWord(b, 28);
    CutWord(b, 44);
    CutWord(b, 52);
    CutWord(b, 56);
    CutWord(b, 60);
    CutWord(b, 68);
    CutWord(b, 72);
    hide Elf.Le16, Elf.Le32;
  }

  function OneCut(): Segment { Segment(PT_LOAD, 84, 0x400_0000, 1, 1) }
  function FirstByteOnly(b: bv8): seq<bv8> { seq(FRAME_SIZE, o => if o == 0 then b else 0) }

  lemma CutNumbers()
    ensures PageCount(OneCut()) == 1 && PageAddress(OneCut(), 0) == 0x400_0000 && OneCut().kind == PT_LOAD
    ensures CopyStart(OneCut(), 0x400_0000) == 0x400_0000 && CopyEnd(OneCut(), 0x400_0000) == 0x400_0001
    ensures CopySource(OneCut(), 0x400_0000) == 84
  {
  }

  lemma CutImage(elf: seq<bv8>)
    ensures PageImage(elf, OneCut(), 0x400_0000) == FirstByteOnly(FileByte(elf, 84))
  {
    CutNumbers();
    hide FileByte, CopyStart, CopyEnd, CopySource, OneCut;
  }

  lemma OneCutPage(b: bv8)
    ensures PagesToLoad(CutFile() + [b], SegmentCount(CutFile() + [b])) == [LoadPage(0x400_0000, FirstByteOnly(b))]
  {
    var elf := CutFile() + [b];
    assert FileByte(elf, 84) == b;
    CutHeader(b);
    assert SegmentAt(elf, 0) == OneCut();
    CutNumbers();
    CutImage(elf);
    hide CutFile, FileByte, SegmentAt, SegmentCount, IsElf32, PageImage, PageCount, PageAddress, OneCut, FirstByteOnly;
    assert PagesToLoad(elf, 0) == [];
    assert PagesToLoad(elf, 1) == SegmentPages(elf, OneCut());
  }

  /** What the program then finds at the address of its segment is the byte that lies after the file, whatever that is. */
  lemma ReadsPastEnd(b: bv8)
    ensures !Contained(CutFile()) && PagesToLoad(CutFile() + [b], SegmentCount(CutFile() + [b])) == [LoadPage(0x400_0000, FirstByteOnly(b))]
  {
    OneCutPage(b);
    OneCutPage(0);
    OneCutPage(1);
    CutHeader(0);
    CutHeader(1);
    assert FirstByteOnly(0)[0] != FirstByteOnly(1)[0];
    hide CutFile, PagesToLoad, IsElf32, SegmentCount, Contained;
    if Contained(CutFile()) {
      ContainedStays(CutFile(), [0]);
      ContainedStays(CutFile(), [1]);
    }
  }

  // ---------------------------------------------------------------- what a stack page still holds

  /** A 32-bit ELF file without segments. */
  function NoSegments(): seq<bv8> { seq(52, i requires 0 <= i < 52 => NoSegmentsByte(i)) }

  function NoSegmentsByte(i: nat): bv8 {
    if i == 0 then 0x7F else if i == 1 then 0x45 else if i == 2 then 0x4C else if i == 3 then 0x46 else if i == 4 then 1 else 0
  }

  lemma NoSegmentsFacts()
    ensures IsElf32(NoSegments()) && SegmentCount(NoSegments()) == 0 && PagesToLoad(NoSegments(), 0) == []
    ensures FramesBeforeStack(NoSegments()) == 1 && Clean(NoSegments())
  {
    assert SegmentCount(NoSegments()) == 0;
    hide NoSegments, SegmentCount, IsElf32;
    assert TablesOf([]) == {};
    assert [] + [LoadPage(USER_STACK_VADDR, [])] == [LoadPage(USER_STACK_VADDR, [])];
  }

  lemma SameNth(x: Memory, y: Memory, n: nat, f: nat, g: nat)
    requires FreeOf(x) == FreeOf(y) && NthFree(x, n, f) && NthFree(y, n, g)
    ensures f == g
  {
    var belowF, belowG := set h <- FreeOf(x) | h < f, set h <- FreeOf(x) | h < g;
    hide FreeFrames;
    if f < g {
      assert belowF + {f} <= belowG;
      Smaller(belowF + {f}, belowG);
    } else if g < f {
      assert belowG + {g} <= belowF;
      Smaller(belowG + {g}, belowF);
    }
  }

  /** A program built, written to and reaped: every frame is free again, and its stack's frame holds the byte. */
  lemma NothingCleared(x0: Memory, x1: Memory, x2: Memory, x3: Memory, dir: nat, f: nat, b: bv8)
    requires Sound(x0) && Sound(x2) && Sound(x3) && NewSpace(x0, x1, dir) && x2.m == x1.m && x3.reserved == x0.reserved
    requires x3.held == x0.held && x3.m.dirs == x2.m.dirs - {dir}
    requires x3.m.leaves == OtherLeaves(x2.m, dir) && x3.m.tables == OtherTables(x2.m, dir)
    requires SlotOf(dir, USER_STACK_VADDR) in x2.m.leaves && x2.m.leaves[SlotOf(dir, USER_STACK_VADDR)].frame == f
    requires SlotOf(dir, USER_STACK_VADDR) in x2.image && |x2.image[SlotOf(dir, USER_STACK_VADDR)]| == FRAME_SIZE
    requires x2.image[SlotOf(dir, USER_STACK_VADDR)][0] == b && PagesUnwritten(x2, x3)
    ensures FreeFrames(x3.counts, x3.reserved) == FreeFrames(x0.counts, x0.reserved) && BytesAt(x3.ram, f)[0] == b
  {
    hide Sound;
    LeafFacts(x2, SlotOf(dir, USER_STACK_VADDR));
    SameLayoutSameFree(x0, x3);
  }

  /** A program without segments runs, stores a byte on its stack, and is reaped. */
  method StoreAndEnd(mem: AddressSpaces, b: bv8) returns (ghost f: nat)
    requires mem.Valid() && Tidy(mem.Now()) && FramesToBuild(NoSegments()) <= |mem.pmm.Free()|
    modifies mem, mem.ram, mem.pmm, mem.pmm.frameBitmap, mem.pmm.frameRefcount
    ensures mem.Valid() && mem.pmm.Free() == old(mem.pmm.Free())
    ensures NthFree(old(mem.Now()), 1, f) && BytesAt(mem.ram[..], f)[0] == b
  {
    hide Sound, Settled, NewSpace, FramesToBuild, IsElf32, NthFree, BytesAt, Poke, FreeOf, Clean, PagesUnwritten, NoSegments, FramesBeforeStack;
    hide ImageWith, NoLeaks, PagesToLoad, SegmentCount, Storable, Tidy;
    NoSegmentsFacts();
    ghost var x0 := mem.Now();
    var r, stack;
    ghost var done;
    r, stack, done, f := BuildProgram(mem, NoSegments());
    ghost var x1, s := mem.Now(), SlotOf(r.dir, USER_STACK_VADDR);
    NewSpaceIs(x0, x1, r.dir);
    OwnedStorable(x1, s);
    StackPoked(x1.image, r.dir, b);
    var ok := Store(mem, r.dir, USER_STACK_VADDR, b);
    ghost var x2 := mem.Now();
    ReleaseAddressSpace(mem, r.dir);
    NothingCleared(x0, x1, x2, mem.Now(), r.dir, f, b);
  }

  lemma OwnedStorable(x: Memory, s: Slot)
    requires Sound(x) && s in x.m.leaves && x.m.leaves[s].flags == OWNED
    ensures Storable(x, s) && s in x.image && |x.image[s]| == FRAME_SIZE
  {
    LeafFacts(x, s);
    hide Sound;
  }

  /** Whatever byte a program stores on its stack, the next program finds it there: run, store, reap, run, load. */
  method OldByteShown(mem: AddressSpaces, b: bv8) returns (seen: Option<bv8>)
    requires mem.Valid() && Tidy(mem.Now()) && FramesToBuild(NoSegments()) <= |mem.pmm.Free()|
    modifies mem, mem.ram, mem.pmm, mem.pmm.frameBitmap, mem.pmm.frameRefcount
    ensures seen == Some(b)
  {
    hide Sound, Tidy, Settled, NewSpace, FramesToBuild, IsElf32, NthFree, BytesAt, FreeOf, Clean, NoSegments, FramesBeforeStack;
    hide ImageWith, NoLeaks, PagesToLoad, SegmentCount;
    NoSegmentsFacts();
    ghost var x0 := mem.Now();
    ghost var f := StoreAndEnd(mem, b);
    ghost var x3 := mem.Now();
    var r, stack;
    ghost var done, g;
    r, stack, done, g := BuildProgram(mem, NoSegments());
    SameFree(x0, x3);
    SameNth(x0, x3, 1, f, g);
    NewSpaceIs(x3, mem.Now(), r.dir);
    seen := Load(mem, r.dir, USER_STACK_VADDR);
  }

  lemma SameFree(x: Memory, y: Memory)
    requires FreeFrames(x.counts, x.reserved) == FreeFrames(y.counts, y.reserved)
    ensures FreeOf(x) == FreeOf(y)
  {
  }

  lemma StackPoked(image: Image, dir: nat, b: bv8)
    requires SlotOf(dir, USER_STACK_VADDR) in image && |image[SlotOf(dir, USER_STACK_VADDR)]| == FRAME_SIZE
    ensures var s := SlotOf(dir, USER_STACK_VADDR);
      OffsetOf(USER_STACK_VADDR) == 0 && s in Poke(image, s, 0, b) && |Poke(image, s, 0, b)[s]| == FRAME_SIZE && Poke(image, s, 0, b)[s][0] == b
  {
  }
}
