/** The ELF32 loader of kernel/elf.c over the address spaces of kernel/paging.c. */
module Elf {
  import opened Bytes
  import opened Pmm
  import opened PageTables
  import opened Paging
  import opened Fork
  import opened UserAccess

  // ---------------------------------------------------------------- the file

  function U32(x: int): nat { x % 0x1_0000_0000 }

  /** The byte at an offset from the start of the file's buffer. The loader is not told where the file ends: a fixed byte stands
      for whatever lies past its end, and ElfBounds says for which files that matters. */
  function FileByte(elf: seq<bv8>, i: nat): bv8 { if i < |elf| then elf[i] else 0xEE }

  function Le16(elf: seq<bv8>, i: nat): nat { FileByte(elf, i) as nat + 0x100 * FileByte(elf, i + 1) as nat }
  function Le32(elf: seq<bv8>, i: nat): nat { Le16(elf, i) + 0x1_0000 * Le16(elf, i + 2) }

  predicate IsElf32(elf: seq<bv8>) {
    && FileByte(elf, 0) == 0x7F && FileByte(elf, 1) == 0x45 && FileByte(elf, 2) == 0x4C && FileByte(elf, 3) == 0x46
    && FileByte(elf, 4) == 1
  }

  function EntryPoint(elf: seq<bv8>): nat { Le32(elf, 24) }
  function SegmentCount(elf: seq<bv8>): nat { Le16(elf, 44) }

  const PT_LOAD := 1

  /** The fields of a program header that the loader reads, all 32 bits wide. */
  datatype Segment = Segment(kind: nat, offset: nat, vaddr: nat, filesz: nat, memsz: nat)

  function SegmentAt(elf: seq<bv8>, i: nat): Segment {
    var at := Le32(elf, 28) + 32 * i;
    Segment(Le32(elf, at), Le32(elf, at + 4), Le32(elf, at + 8), Le32(elf, at + 16), Le32(elf, at + 20))
  }

  // ---------------------------------------------------------------- the pages of a segment

  function PageDown(x: nat): nat { x - x % FRAME_SIZE }
  function FirstPage(seg: Segment): nat { PageDown(seg.vaddr) }
  function EndPage(seg: Segment): nat { PageDown(U32(seg.vaddr + seg.memsz + FRAME_SIZE - 1)) }
  function PageCount(seg: Segment): nat { U32(EndPage(seg) - FirstPage(seg)) / FRAME_SIZE }
  function PageAddress(seg: Segment, p: nat): nat { U32(FirstPage(seg) + p * FRAME_SIZE) }

  /** Where in a page the file's bytes go: the copied range of addresses, empty when start >= end. */
  function CopyStart(seg: Segment, page: nat): nat { if page > seg.vaddr then page else seg.vaddr }
  function CopyEnd(seg: Segment, page: nat): nat {
    var pageEnd, fileEnd := U32(page + FRAME_SIZE), U32(seg.vaddr + seg.filesz);
    if pageEnd > fileEnd then fileEnd else pageEnd
  }
  function CopySource(seg: Segment, page: nat): nat { U32(seg.offset + CopyStart(seg, page) - seg.vaddr) }

  /** The bytes of one page as the loader's arithmetic makes them. */
  function PageImage(elf: seq<bv8>, seg: Segment, page: nat): (bytes: seq<bv8>)
    ensures |bytes| == FRAME_SIZE
  {
    seq(FRAME_SIZE, o requires 0 <= o < FRAME_SIZE =>
      if CopyStart(seg, page) <= page + o < CopyEnd(seg, page)
      then FileByte(elf, CopySource(seg, page) + (page + o - CopyStart(seg, page))) else 0)
  }

  /** The segment does not run past the end of the address space or of a 32-bit file. */
  predicate NoWrap(seg: Segment) {
    && seg.vaddr + seg.memsz + FRAME_SIZE <= 0x1_0000_0000
    && seg.filesz <= seg.memsz && seg.offset + seg.filesz <= 0x1_0000_0000
  }

  /** What a segment's memory should hold: the file's bytes, then zeros. */
  function SegmentByte(elf: seq<bv8>, seg: Segment, a: nat): bv8 {
    if seg.vaddr <= a < seg.vaddr + seg.filesz then FileByte(elf, seg.offset + (a - seg.vaddr)) else 0
  }

  lemma PageImageIsSegment(elf: seq<bv8>, seg: Segment, page: nat, o: nat)
    requires NoWrap(seg) && FirstPage(seg) <= page && page + FRAME_SIZE < 0x1_0000_0000 && page % FRAME_SIZE == 0 && o < FRAME_SIZE
    ensures PageImage(elf, seg, page)[o] == SegmentByte(elf, seg, page + o)
  {
    var start := CopyStart(seg, page);
    assert U32(page + FRAME_SIZE) == page + FRAME_SIZE && U32(seg.vaddr + seg.filesz) == seg.vaddr + seg.filesz;
    if start <= page + o < CopyEnd(seg, page) {
      assert CopySource(seg, page) == seg.offset + start - seg.vaddr;
    }
  }

  /** An address between a segment's first page and its end lies in one of its pages. */
  lemma PageOfAddress(seg: Segment, a: nat)
    requires NoWrap(seg) && FirstPage(seg) <= a < EndPage(seg)
    ensures (a - FirstPage(seg)) / FRAME_SIZE < PageCount(seg)
    ensures PageAddress(seg, (a - FirstPage(seg)) / FRAME_SIZE) == PageDown(a)
    ensures FirstPage(seg) <= PageDown(a) && PageDown(a) + FRAME_SIZE < 0x1_0000_0000
  {
    var p := (a - FirstPage(seg)) / FRAME_SIZE;
    assert PageDown(a) == FirstPage(seg) + p * FRAME_SIZE;
  }

  // ---------------------------------------------------------------- loading, page by page

  datatype LoadPage = LoadPage(virt: nat, bytes: seq<bv8>)

  function SegmentPages(elf: seq<bv8>, seg: Segment): seq<LoadPage> {
    seq(PageCount(seg), p requires 0 <= p => LoadPage(PageAddress(seg, p), PageImage(elf, seg, PageAddress(seg, p))))
  }

  /** The pages the loader maps for the first n program headers, in order. */
  function PagesToLoad(elf: seq<bv8>, n: nat): seq<LoadPage> {
    if n == 0 then []
    else PagesToLoad(elf, n - 1) +
         if SegmentAt(elf, n - 1).kind == PT_LOAD then SegmentPages(elf, SegmentAt(elf, n - 1)) else []
  }

  /** The image once these pages are mapped in order; kernel addresses are refused. */
  function ImageWith(image: Image, dir: nat, pages: seq<LoadPage>): Image {
    if pages == [] then image
    else WithPage(ImageWith(image, dir, pages[..|pages| - 1]), dir, pages[|pages| - 1])
  }

  function WithPage(image: Image, dir: nat, page: LoadPage): Image {
    if PageOf(page.virt).pd < IDENTITY_TABLES then image else image[SlotOf(dir, page.virt) := page.bytes]
  }

  /** Every page is in user space and none is mapped twice. */
  ghost predicate PagesDistinct(pages: seq<LoadPage>) {
    && (forall i :: 0 <= i < |pages| ==> PageOf(pages[i].virt).pd >= IDENTITY_TABLES)
    && (forall i, j :: 0 <= i < j < |pages| ==> PageOf(pages[i].virt) != PageOf(pages[j].virt))
  }

  /** Pages mapped once keep what they were given. */
  lemma {:induction false} LoadedPage(image: Image, dir: nat, pages: seq<LoadPage>, i: nat)
    requires PagesDistinct(pages) && i < |pages|
    ensures SlotOf(dir, pages[i].virt) in ImageWith(image, dir, pages)
    ensures ImageWith(image, dir, pages)[SlotOf(dir, pages[i].virt)] == pages[i].bytes
  {
    if i < |pages| - 1 {
      LoadedPage(image, dir, pages[..|pages| - 1], i);
    }
  }

  lemma {:induction false} SegmentAmongPages(elf: seq<bv8>, n: nat, i: nat, p: nat)
    requires i < n && SegmentAt(elf, i).kind == PT_LOAD && p < PageCount(SegmentAt(elf, i))
    ensures SegmentPages(elf, SegmentAt(elf, i))[p] in PagesToLoad(elf, n)
  {
    hide SegmentAt, PageImage, PageCount, PageAddress;
    if i < n - 1 {
      SegmentAmongPages(elf, n - 1, i, p);
    } else {
      assert SegmentPages(elf, SegmentAt(elf, i))[p] in SegmentPages(elf, SegmentAt(elf, i));
    }
  }

  /** The image theorem: when all pages are distinct user pages, every byte of a loaded segment, up to the end of its last page
      and down to the start of its first, is the byte at its offset in the buffer or zero. */
  lemma LoadedImage(image: Image, dir: nat, elf: seq<bv8>, i: nat, a: nat)
    requires PagesDistinct(PagesToLoad(elf, SegmentCount(elf)))
    requires i < SegmentCount(elf) && SegmentAt(elf, i).kind == PT_LOAD && NoWrap(SegmentAt(elf, i))
    requires FirstPage(SegmentAt(elf, i)) <= a < EndPage(SegmentAt(elf, i))
    ensures var loaded := ImageWith(image, dir, PagesToLoad(elf, SegmentCount(elf)));
      SlotOf(dir, a) in loaded && |loaded[SlotOf(dir, a)]| == FRAME_SIZE &&
      loaded[SlotOf(dir, a)][OffsetOf(a)] == SegmentByte(elf, SegmentAt(elf, i), a)
  {
    hide PagesDistinct, PagesToLoad, ImageWith, PageImage, SegmentByte, NoWrap, SegmentAt, SegmentCount, EndPage, PageCount, PageAddress;
    var seg := SegmentAt(elf, i);
    var p := (a - FirstPage(seg)) / FRAME_SIZE;
    PageOfAddress(seg, a);
    SegmentAmongPages(elf, SegmentCount(elf), i, p);
    var pages := PagesToLoad(elf, SegmentCount(elf));
    var k :| 0 <= k < |pages| && pages[k] == SegmentPages(elf, seg)[p];
    LoadedPage(image, dir, pages, k);
    SamePage(a);
    PageImageIsSegment(elf, seg, PageDown(a), OffsetOf(a));
  }

  lemma SamePage(a: nat)
    ensures PageOf(PageDown(a)) == PageOf(a) && PageDown(a) + OffsetOf(a) == a && PageDown(a) % FRAME_SIZE == 0
  {
    var q := a / FRAME_SIZE;
    assert PageDown(a) == FRAME_SIZE * q;
    Quarters(a, q);
    Quarters(PageDown(a), q);
  }

  lemma Quarters(a: nat, q: nat)
    requires FRAME_SIZE * q <= a < FRAME_SIZE * (q + 1)
    ensures a / 0x40_0000 == q / ENTRIES && a / FRAME_SIZE == q
  {
    var t := q / ENTRIES;
    assert ENTRIES * t <= q < ENTRIES * (t + 1);
    assert 0x40_0000 * t <= a < 0x40_0000 * (t + 1);
  }

  // ---------------------------------------------------------------- the methods

  /** Zeroes a frame, then copies the file bytes that fall within the page. */
  method FillPage(mem: AddressSpaces, frame: nat, elf: seq<bv8>, seg: Segment, page: nat)
    requires mem.ram.Length == MAX_FRAMES && frame < IDENTITY_FRAMES
    modifies mem.ram
    ensures mem.ram[..] == old(mem.ram[..])[frame := Page(PageImage(elf, seg, page))]
  {
    for z := 0 to FRAME_SIZE
      invariant forall f: nat :: f < MAX_FRAMES && f != frame ==> mem.ram[f] == old(mem.ram[f])
      invariant z > 0 ==> mem.ram[frame].Page? && |mem.ram[frame].bytes| == FRAME_SIZE
      invariant forall o :: 0 <= o < z ==> mem.ram[frame].bytes[o] == 0
    {
      mem.ram[frame] := Page(Contents(mem.ram[frame])[z := 0]);
    }
    var start, end := CopyStart(seg, page), CopyEnd(seg, page);
    if start < end {
      CopyInside(seg, page);
      var source, target := CopySource(seg, page), start - page;
      for b := 0 to end - start
        invariant forall f: nat :: f < MAX_FRAMES && f != frame ==> mem.ram[f] == old(mem.ram[f])
        invariant mem.ram[frame].Page? && |mem.ram[frame].bytes| == FRAME_SIZE
        invariant forall o :: 0 <= o < FRAME_SIZE ==>
          mem.ram[frame].bytes[o] == if target <= o < target + b then FileByte(elf, source + (o - target)) else 0
      {
        mem.ram[frame] := Page(Contents(mem.ram[frame])[target + b := FileByte(elf, source + b)]);
      }
    }
    assert mem.ram[frame].bytes == PageImage(elf, seg, page);
  }

  /** However the 32-bit sums wrap, what is copied stays inside the page. */
  lemma CopyInside(seg: Segment, page: nat)
    requires CopyStart(seg, page) < CopyEnd(seg, page)
    ensures page <= CopyStart(seg, page) && CopyEnd(seg, page) <= page + FRAME_SIZE
  {
  }

  /** How one page, or a whole load, ends. NoTable is the case the code does not check: a page table
      was needed and no frame was left for it. Nothing is claimed about what happens then. */
  datatype Status = Done | OutOfMemory | NoTable

  /** A page that is refused, or mapped over another, leaves a frame referenced by nobody. */
  predicate Leaks(image: Image, s: Slot) { s.page.pd < IDENTITY_TABLES || s in image }

  ghost predicate HeldGrows(before: Tally, after: Tally) { forall f: nat :: f < MAX_FRAMES ==> before[f] <= after[f] }

  /** Memory after one page is loaded into frame n and mapped, its page table made in frame t. */
  function PageStep(x: Memory, s: Slot, n: nat, frame: Frame, t: nat): Memory
    requires n < MAX_FRAMES && (NeedsTable(x.m, s) ==> t < MAX_FRAMES)
  {
    MapStep(Loaded(x, n, frame), s, Pte(n, OWNED), t)
  }

  function OtherTables(m: Layout, d: nat): map<TableSlot, nat> { map k <- m.tables | k.dir != d :: m.tables[k] }
  function OtherLeaves(m: Layout, d: nat): map<Slot, Pte> { map s <- m.leaves | s.dir != d :: m.leaves[s] }

  /** The layouts differ in one directory only. */
  ghost predicate SameElsewhere(m: Layout, m': Layout, d: nat) {
    m.dirs == m'.dirs && OtherTables(m, d) == OtherTables(m', d) && OtherLeaves(m, d) == OtherLeaves(m', d)
  }

  lemma SameDirectories(m: Layout, m': Layout, d: nat)
    requires SameElsewhere(m, m', d)
    ensures m'.dirs == m.dirs
  {
  }

  /** A frame allocated and filled, not yet mapped. */
  function Loaded(x: Memory, n: nat, frame: Frame): Memory
    requires n < MAX_FRAMES
  {
    AllocStep(x, n).(ram := x.ram[n := frame])
  }

  lemma LoadedSound(x: Memory, n: nat, frame: Frame)
    requires Sound(x) && n in FreeFrames(x.counts, x.reserved)
    ensures Sound(Loaded(x, n, frame)) && Unused(x.m, n) && n < IDENTITY_FRAMES && n !in x.reserved
  {
    hide Sound;
    AllocStepSound(x, n);
    ScratchStepSound(AllocStep(x, n), n, frame);
  }

  lemma PageStepElsewhere(x: Memory, s: Slot, n: nat, frame: Frame, t: nat)
    requires n < MAX_FRAMES && (NeedsTable(x.m, s) ==> t < MAX_FRAMES)
    ensures SameElsewhere(x.m, PageStep(x, s, n, frame, t).m, s.dir)
  {
  }

  lemma PageStepSound(x: Memory, s: Slot, n: nat, frame: Frame, t: nat)
    requires Sound(x) && n in FreeFrames(x.counts, x.reserved)
    requires s.dir in x.m.dirs && IDENTITY_TABLES <= s.page.pd < ENTRIES && s.page.pt < ENTRIES
    requires NeedsTable(x.m, s) ==> t in FreeFrames(x.counts, x.reserved) - {n}
    ensures Sound(PageStep(x, s, n, frame, t))
    ensures PageStep(x, s, n, frame, t).image == x.image[s := Contents(frame)]
    ensures SameElsewhere(x.m, PageStep(x, s, n, frame, t).m, s.dir)
    ensures HeldGrows(x.held, PageStep(x, s, n, frame, t).held)
    ensures PageStep(x, s, n, frame, t).held == x.held <==> !Leaks(x.image, s)
  {
    hide Sound, MayMap, SameElsewhere;
    PageStepElsewhere(x, s, n, frame, t);
    LoadedSound(x, n, frame);
    LoadedMayMap(x, s, n, frame);
    FreeAfterUpdate(x.counts, x.reserved, n, 1);
    MapStepSound(Loaded(x, n, frame), s, Pte(n, OWNED), t);
    ImageKeys(x);
    if s in x.m.leaves {
      LeafFacts(x, s);
      assert PageStep(x, s, n, frame, t).held[x.m.leaves[s].frame] == x.held[x.m.leaves[s].frame] + 1;
    }
  }

  lemma LoadedMayMap(x: Memory, s: Slot, n: nat, frame: Frame)
    requires n < MAX_FRAMES && Unused(x.m, n)
    ensures MayMap(Loaded(x, n, frame).m, s, Pte(n, OWNED))
  {
  }

  /** An address space shares no page. */
  ghost predicate Private(m: Layout, dir: nat) { forall s <- m.leaves :: s.dir == dir ==> m.leaves[s].flags == OWNED }

  /** What a load relies on and keeps, so that a frame it maps over is used by nobody. */
  ghost predicate Settled(x: Memory, dir: nat) { Tidy(x) && Private(x.m, dir) }

  /** The layout after frame n takes a page's place, its page table made in frame t. */
  function PlacedLayout(m: Layout, s: Slot, n: nat, t: nat): Layout {
    WithLeaf(if NeedsTable(m, s) then WithTable(m, TableOf(s), t) else m, s, Pte(n, OWNED))
  }

  /** The outside references, once the page mapped before is referenced by nobody else. */
  ghost predicate Orphans(held: Tally, m: Layout, s: Slot, held': Tally) {
    forall f: nat :: f < MAX_FRAMES ==> held'[f] == held[f] + Refers(EntryAt(m, s), f)
  }

  lemma PlacedHeldApart(held: Tally, m: Layout, s: Slot, n: nat, t: nat, held': Tally)
    requires WellFormed(m) && CopyOnWrite(m) && HeldApart(held, m) && Private(m, s.dir)
    requires n < MAX_FRAMES && Unused(m, n) && held[n] == 0
    requires NeedsTable(m, s) ==> t < MAX_FRAMES && Unused(m, t) && held[t] == 0
    requires Orphans(held, m, s, held')
    ensures HeldApart(held', PlacedLayout(m, s, n, t))
  {
    if s in m.leaves {
      var g := m.leaves[s].frame;
      forall u <- m.leaves | u != s
        ensures m.leaves[u].frame != g
      {
        assert LeafUses(m, g) == {s};
        assert m.leaves[u].frame == g ==> u in LeafUses(m, g);
      }
    }
  }

  lemma PlacedTablesUsed(m: Layout, s: Slot, n: nat, t: nat)
    requires TablesUsed(m)
    ensures TablesUsed(PlacedLayout(m, s, n, t))
    ensures Private(m, s.dir) ==> Private(PlacedLayout(m, s, n, t), s.dir)
  {
    var m' := PlacedLayout(m, s, n, t);
    assert s in m'.leaves && HasPage(m', TableOf(s));
    TablesStayUsed(m, m');
  }

  lemma PageStepHeld(x: Memory, s: Slot, n: nat, frame: Frame, t: nat)
    requires n < MAX_FRAMES && (NeedsTable(x.m, s) ==> t < MAX_FRAMES) && x.held[n] == 0
    requires s in x.m.leaves ==> x.m.leaves[s] != NO_PTE && x.m.leaves[s].frame < MAX_FRAMES
    ensures PageStep(x, s, n, frame, t).m == PlacedLayout(x.m, s, n, t)
    ensures Orphans(x.held, x.m, s, PageStep(x, s, n, frame, t).held)
  {
  }

  lemma PageStepSettled(x: Memory, s: Slot, n: nat, frame: Frame, t: nat)
    requires Sound(x) && n in FreeFrames(x.counts, x.reserved) && Settled(x, s.dir)
    requires NeedsTable(x.m, s) ==> t in FreeFrames(x.counts, x.reserved) - {n}
    ensures n < MAX_FRAMES && (NeedsTable(x.m, s) ==> t < MAX_FRAMES)
    ensures Settled(PageStep(x, s, n, frame, t), s.dir)
  {
    FreeUnheld(x, n);
    if NeedsTable(x.m, s) { FreeUnheld(x, t); }
    if s in x.m.leaves { LeafFacts(x, s); FlagBits(); }
    hide KernelHalf, Agrees, Balanced, Shows, Uncounted, PageStep, FreeFrames;
    PageStepHeld(x, s, n, frame, t);
    PlacedHeldApart(x.held, x.m, s, n, t, PageStep(x, s, n, frame, t).held);
    PlacedTablesUsed(x.m, s, n, t);
    hide HeldApart, TablesUsed, WellFormed, CopyOnWrite, Orphans, Unused, Private, PlacedLayout;
  }

  /** A frame allocated for a page that is then refused stays held, and used by nobody. */
  lemma LoadedSettled(x: Memory, n: nat, frame: Frame, dir: nat)
    requires Sound(x) && n in FreeFrames(x.counts, x.reserved) && Settled(x, dir)
    ensures n < MAX_FRAMES && Settled(Loaded(x, n, frame), dir)
  {
    FreeUnheld(x, n);
    hide KernelHalf, Agrees, Balanced, CopyOnWrite, Shows, Uncounted, FreeFrames;
    UnusedHeld(x.held, x.m, n);
    hide HeldApart, TablesUsed, WellFormed, Unused, Private;
  }

  /** The page table that a page of user space lies under. */
  function UserTable(virt: nat): set<nat> { if PageOf(virt).pd >= IDENTITY_TABLES then {PageOf(virt).pd} else {} }

  function TablesOf(pages: seq<LoadPage>): set<nat> {
    if pages == [] then {} else TablesOf(pages[..|pages| - 1]) + UserTable(pages[|pages| - 1].virt)
  }

  /** A frame for every page, refused ones included, and one for every page table not there yet. */
  function FramesToLoad(pages: seq<LoadPage>, have: set<nat>): nat { |pages| + |TablesOf(pages) - have| }

  lemma FramesForOneMore(pages: seq<LoadPage>, have: set<nat>, page: LoadPage)
    ensures TablesOf(pages + [page]) == TablesOf(pages) + UserTable(page.virt)
    ensures FramesToLoad(pages + [page], have)
         == FramesToLoad(pages, have) + 1 + |UserTable(page.virt) - (have + TablesOf(pages))|
  {
    assert (pages + [page])[..|pages + [page]| - 1] == pages;
    var there, more := TablesOf(pages) - have, UserTable(page.virt) - (have + TablesOf(pages));
    assert TablesOf(pages + [page]) - have == there + more && there !! more;
  }

  lemma {:induction false} FramesForPrefix(pages: seq<LoadPage>, n: nat, have: set<nat>)
    requires n <= |pages|
    ensures FramesToLoad(pages[..n], have) <= FramesToLoad(pages, have)
  {
    hide FramesToLoad;
    if n < |pages| {
      var before := pages[..|pages| - 1];
      FramesForPrefix(before, n, have);
      FramesForOneMore(before, have, pages[|pages| - 1]);
      assert before[..n] == pages[..n] && before + [pages[|pages| - 1]] == pages;
    } else {
      assert pages[..n] == pages;
    }
  }

  lemma NeedsUserTable(m: Layout, dir: nat, virt: nat)
    ensures |UserTable(virt) - TableIndexes(m, dir)| == if NeedsTable(m, SlotOf(dir, virt)) then 1 else 0
  {
    var pd := PageOf(virt).pd;
    assert UserTable(virt) - TableIndexes(m, dir) == if NeedsTable(m, SlotOf(dir, virt)) then {pd} else {};
  }

  lemma PageStepTables(x: Memory, s: Slot, n: nat, frame: Frame, t: nat)
    requires n < MAX_FRAMES && (NeedsTable(x.m, s) ==> t < MAX_FRAMES)
    ensures TableIndexes(PageStep(x, s, n, frame, t).m, s.dir) ==
      TableIndexes(x.m, s.dir) + if s.page.pd >= IDENTITY_TABLES then {s.page.pd} else {}
  {
    var m, m' := x.m, PageStep(x, s, n, frame, t).m;
    assert m'.tables == if NeedsTable(m, s) then m.tables[TableOf(s) := t] else m.tables;
    forall i: nat
      ensures i in TableIndexes(m', s.dir) <==> i in TableIndexes(m, s.dir) || (s.page.pd >= IDENTITY_TABLES && i == s.page.pd)
    {
      assert i in TableIndexes(m', s.dir) <==> TableSlot(s.dir, i) in m'.tables;
      assert i in TableIndexes(m, s.dir) <==> TableSlot(s.dir, i) in m.tables;
    }
  }

  /** Loading a page takes a frame, and perhaps another for its table, and writes no frame that is left free. */
  lemma PageStepHandedOut(x: Memory, s: Slot, n: nat, frame: Frame, t: nat)
    requires Sound(x) && n in FreeFrames(x.counts, x.reserved) && (forall g <- FreeFrames(x.counts, x.reserved) :: n <= g)
    requires s.dir in x.m.dirs && s.page.pd >= IDENTITY_TABLES
    requires NeedsTable(x.m, s) ==> t in FreeFrames(x.counts, x.reserved) - {n}
    requires NeedsTable(x.m, s) ==> forall g <- FreeFrames(x.counts, x.reserved) - {n} :: t <= g
    ensures n < MAX_FRAMES && (NeedsTable(x.m, s) ==> t < MAX_FRAMES)
    ensures HandedOut(x, PageStep(x, s, n, frame, t))
  {
    Loading(x, n, frame);
    DirectoryUsed(x, s);
    var y := Loaded(x, n, frame);
    hide Sound, Handover, Mapped;
    if NeedsTable(x.m, s) {
      FreeAfterUpdate(y.counts, y.reserved, t, 1);
      LowestHandedOut(y, PageStep(x, s, n, frame, t), t);
    } else {
      SameFreeHandedOut(y, PageStep(x, s, n, frame, t));
    }
    HandedOutOn(x, y, PageStep(x, s, n, frame, t));
  }

  lemma PageStepLeaf(x: Memory, s: Slot, n: nat, frame: Frame, t: nat)
    requires n < MAX_FRAMES && (NeedsTable(x.m, s) ==> t < MAX_FRAMES)
    ensures s in PageStep(x, s, n, frame, t).m.leaves && PageStep(x, s, n, frame, t).m.leaves[s] == Pte(n, OWNED)
  {
  }

  lemma Loading(x: Memory, n: nat, frame: Frame)
    requires n in FreeFrames(x.counts, x.reserved) && (forall g <- FreeFrames(x.counts, x.reserved) :: n <= g)
    ensures n < MAX_FRAMES && HandedOut(x, Loaded(x, n, frame))
    ensures FreeFrames(Loaded(x, n, frame).counts, x.reserved) == FreeFrames(x.counts, x.reserved) - {n}
  {
    FreeAfterUpdate(x.counts, x.reserved, n, 1);
    LowestHandedOut(x, Loaded(x, n, frame), n);
  }

  lemma DirectoryUsed(x: Memory, s: Slot)
    requires Sound(x) && s.dir in x.m.dirs
    ensures s.dir !in FreeFrames(x.counts, x.reserved)
    ensures TableOf(s) in x.m.tables ==> x.m.tables[TableOf(s)] !in FreeFrames(x.counts, x.reserved)
  {
    UseCounts(x.counts, x.held, x.m, s.dir);
    if TableOf(s) in x.m.tables { UseCounts(x.counts, x.held, x.m, x.m.tables[TableOf(s)]); }
  }

  lemma SameFreeHandedOut(x: Memory, y: Memory)
    requires y.reserved == x.reserved && y.counts == x.counts
    requires forall h <- FreeFrames(y.counts, y.reserved) :: h < MAX_FRAMES && y.ram[h] == x.ram[h]
    ensures HandedOut(x, y)
  {
  }

  /** A frame for one page, filled; 0 when memory is out. */
  method LoadFrame(mem: AddressSpaces, elf: seq<bv8>, seg: Segment, page: nat) returns (n: nat)
    requires mem.Valid()
    modifies mem, mem.ram, mem.pmm, mem.pmm.frameBitmap, mem.pmm.frameRefcount
    ensures mem.Valid()
    ensures n == 0 ==> mem.Now() == old(mem.Now()) && old(mem.pmm.Free()) == {}
    ensures n != 0 ==> n in old(mem.pmm.Free()) && n < MAX_FRAMES && mem.pmm.Free() == old(mem.pmm.Free()) - {n}
    ensures n != 0 ==> forall g <- old(mem.pmm.Free()) :: n <= g
    ensures n != 0 ==> mem.Now() == Loaded(old(mem.Now()), n, Page(PageImage(elf, seg, page)))
  {
    hide Sound, PageImage;
    ghost var x, bytes := mem.Now(), PageImage(elf, seg, page);
    n := AllocHeld(mem);
    if n == 0 { return; }
    LoadedSound(x, n, Page(bytes));
    FillPage(mem, n, elf, seg, page);
    assert mem.Now() == Loaded(x, n, Page(bytes));
  }

  lemma LastFrame(free: set<nat>, n: nat)
    requires n in free && free - {n} == {}
    ensures |free| == 1
  {
    assert free == {n};
  }

  /** The body of the page loop. */
  method LoadOnePage(mem: AddressSpaces, elf: seq<bv8>, seg: Segment, dir: nat, page: nat) returns (status: Status)
    requires mem.Valid() && dir in mem.m.dirs && page < 0x1_0000_0000
    modifies mem, mem.ram, mem.pmm, mem.pmm.frameBitmap, mem.pmm.frameRefcount
    ensures mem.Valid() && mem.m.dirs == old(mem.m.dirs)
    ensures status.Done? ==> SameElsewhere(old(mem.m), mem.m, dir)
    ensures status.Done? ==> mem.image == WithPage(old(mem.image), dir, LoadPage(page, PageImage(elf, seg, page)))
    ensures status.Done? ==> HeldGrows(old(mem.held), mem.held)
    ensures status.Done? ==> (mem.held == old(mem.held) <==> !Leaks(old(mem.image), SlotOf(dir, page)))
    ensures status.Done? ==> |mem.pmm.Free()| == |old(mem.pmm.Free())| - 1 - |UserTable(page) - TableIndexes(old(mem.m), dir)|
    ensures status.Done? ==> TableIndexes(mem.m, dir) == TableIndexes(old(mem.m), dir) + UserTable(page)
    ensures status.Done? && old(Settled(mem.Now(), dir)) ==> Settled(mem.Now(), dir)
    ensures status.Done? ==> HandedOut(old(mem.Now()), mem.Now())
    ensures status.OutOfMemory? ==> mem.Now() == old(mem.Now()) && old(mem.pmm.Free()) == {}
    ensures status.NoTable? ==> mem.image == old(mem.image) && |old(mem.pmm.Free())| == 1
    ensures status.NoTable? ==> UserTable(page) - TableIndexes(old(mem.m), dir) != {}
  {
    hide Sound, PageImage, MayMap, MapStep, Handover, Settled, TableIndexes, HandedOut, SameElsewhere, HeldGrows;
    ghost var x, s, bytes := mem.Now(), SlotOf(dir, page), PageImage(elf, seg, page);
    AddressSplits(page);
    NeedsUserTable(x.m, dir, page);
    var n := LoadFrame(mem, elf, seg, page);
    if n == 0 { return OutOfMemory; }
    LoadedFacts(x, n, Page(bytes), dir);
    assert mem.image == x.image && mem.m == x.m && Sound(x) && old(mem.pmm.Free()) == FreeFrames(x.counts, x.reserved);
    assert Contents(Page(bytes)) == bytes && x.held == old(mem.held);
    hide *;
    var room := RoomForPage(mem, dir, page);
    if !room {
      LastFrame(old(mem.pmm.Free()), n);
      return NoTable;
    }
    MapLoaded(mem, x, n, Page(bytes), dir, page);
    SameDirectories(x.m, mem.m, dir);
    return Done;
  }

  /** Whether the page table behind a page is there, refused, or can be made. The code does not look. */
  method RoomForPage(mem: AddressSpaces, dir: nat, page: nat) returns (room: bool)
    requires mem.Valid() && dir in mem.m.dirs && page < 0x1_0000_0000
    ensures !room <==> NeedsTable(mem.m, SlotOf(dir, page)) && mem.pmm.Free() == {}
  {
    hide Sound;
    AddressSplits(page);
    Walk(mem.Now(), dir, PageOf(page));
    FlagBits();
    var free := mem.pmm.FreeFrameCount();
    room := page / 0x40_0000 < IDENTITY_TABLES || mem.Word(dir, page / 0x40_0000).Present() || free > 0;
  }

  /** What loading a page into frame n and mapping it does to everything but the free frames. */
  ghost predicate PageLoaded(x: Memory, y: Memory, n: nat, frame: Frame, dir: nat, page: nat) {
    && SameElsewhere(x.m, y.m, dir) && y.image == WithPage(x.image, dir, LoadPage(page, Contents(frame)))
    && HeldGrows(x.held, y.held) && (y.held == x.held <==> !Leaks(x.image, SlotOf(dir, page)))
    && TableIndexes(y.m, dir) == TableIndexes(x.m, dir) + UserTable(page) && (Settled(x, dir) ==> Settled(y, dir))
    && HandedOut(x, y)
    && (PageOf(page).pd >= IDENTITY_TABLES ==>
          SlotOf(dir, page) in y.m.leaves && y.m.leaves[SlotOf(dir, page)] == Pte(n, OWNED))
  }

  lemma PageStepLoaded(x: Memory, n: nat, frame: Frame, dir: nat, page: nat, t: nat)
    requires Sound(x) && n in FreeFrames(x.counts, x.reserved) && (forall g <- FreeFrames(x.counts, x.reserved) :: n <= g)
    requires dir in x.m.dirs && page < 0x1_0000_0000 && PageOf(page).pd >= IDENTITY_TABLES
    requires NeedsTable(x.m, SlotOf(dir, page)) ==> t in FreeFrames(x.counts, x.reserved) - {n}
    requires NeedsTable(x.m, SlotOf(dir, page)) ==> forall g <- FreeFrames(x.counts, x.reserved) - {n} :: t <= g
    ensures n < MAX_FRAMES && (NeedsTable(x.m, SlotOf(dir, page)) ==> t < MAX_FRAMES)
    ensures PageLoaded(x, PageStep(x, SlotOf(dir, page), n, frame, t), n, frame, dir, page)
  {
    hide Sound, MayMap, PageStep, Settled, TableIndexes, SameElsewhere, HeldGrows, HandedOut;
    var s := SlotOf(dir, page);
    AddressSplits(page);
    PageStepSound(x, s, n, frame, t);
    PageStepTables(x, s, n, frame, t);
    PageStepHandedOut(x, s, n, frame, t);
    PageStepLeaf(x, s, n, frame, t);
    if Settled(x, dir) { PageStepSettled(x, s, n, frame, t); }
  }

  /** A page below user space is refused, and its frame lost. */
  lemma RefusedLoaded(x: Memory, n: nat, frame: Frame, dir: nat, page: nat)
    requires Sound(x) && n in FreeFrames(x.counts, x.reserved) && (forall g <- FreeFrames(x.counts, x.reserved) :: n <= g)
    requires PageOf(page).pd < IDENTITY_TABLES
    ensures n < MAX_FRAMES && PageLoaded(x, Loaded(x, n, frame), n, frame, dir, page)
  {
    Loading(x, n, frame);
    hide Sound, Settled, TableIndexes, SameElsewhere, HeldGrows, HandedOut, Loaded;
    LoadedFacts(x, n, frame, dir);
    if Settled(x, dir) { LoadedSettled(x, n, frame, dir); }
  }

  /** The filled frame is mapped. */
  method MapLoaded(mem: AddressSpaces, ghost x: Memory, n: nat, ghost frame: Frame, dir: nat, page: nat)
    requires mem.Valid() && Sound(x) && n in FreeFrames(x.counts, x.reserved) && mem.Now() == Loaded(x, n, frame)
    requires mem.pmm.Free() == FreeFrames(x.counts, x.reserved) - {n} && forall g <- FreeFrames(x.counts, x.reserved) :: n <= g
    requires dir in mem.m.dirs && page < 0x1_0000_0000
    requires NeedsTable(mem.m, SlotOf(dir, page)) ==> mem.pmm.Free() != {}
    modifies mem, mem.ram, mem.pmm, mem.pmm.frameBitmap, mem.pmm.frameRefcount
    ensures mem.Valid() && SameElsewhere(x.m, mem.m, dir)
    ensures mem.image == WithPage(x.image, dir, LoadPage(page, Contents(frame)))
    ensures HeldGrows(x.held, mem.held)
    ensures mem.held == x.held <==> !Leaks(x.image, SlotOf(dir, page))
    ensures |mem.pmm.Free()| == |FreeFrames(x.counts, x.reserved)| - 1 - |UserTable(page) - TableIndexes(x.m, dir)|
    ensures TableIndexes(mem.m, dir) == TableIndexes(x.m, dir) + UserTable(page)
    ensures Settled(x, dir) ==> Settled(mem.Now(), dir)
    ensures HandedOut(x, mem.Now())
    ensures PageOf(page).pd >= IDENTITY_TABLES ==>
      SlotOf(dir, page) in mem.m.leaves && mem.m.leaves[SlotOf(dir, page)] == Pte(n, OWNED)
  {
    hide Sound, MayMap, MapStep, Handover, Settled, TableIndexes, SameElsewhere, HeldGrows, Loaded, HandedOut;
    ghost var s := SlotOf(dir, page);
    NeedsUserTable(x.m, dir, page);
    LoadedSound(x, n, frame);
    LoadedMayMap(x, s, n, frame);
    LoadedFacts(x, n, frame, dir);
    var ok, t := mem.MapUserPage(dir, n, page, RW | USER);
    if ok {
      PageStepLoaded(x, n, frame, dir, page, t);
      assert mem.Now() == PageStep(x, s, n, frame, t);
    } else {
      RefusedLoaded(x, n, frame, dir, page);
    }
    hide FreeFrames, NeedsTable, UserTable, WithPage, Leaks;
    assert PageLoaded(x, mem.Now(), n, frame, dir, page);
  }

  lemma LoadedFacts(x: Memory, n: nat, frame: Frame, dir: nat)
    requires n < MAX_FRAMES
    ensures Loaded(x, n, frame).m == x.m && Loaded(x, n, frame).image == x.image && Loaded(x, n, frame).held[n] == x.held[n] + 1
    ensures SameElsewhere(x.m, x.m, dir) && HeldGrows(x.held, Loaded(x, n, frame).held)
  {
  }

  // ---------------------------------------------------------------- the whole file

  /** No page of the list leaks a frame when the list is loaded in order. */
  ghost predicate NoLeaks(image: Image, dir: nat, pages: seq<LoadPage>) {
    pages == [] ||
    (NoLeaks(image, dir, pages[..|pages| - 1]) &&
     !Leaks(ImageWith(image, dir, pages[..|pages| - 1]), SlotOf(dir, pages[|pages| - 1].virt)))
  }

  lemma {:induction false} ImageWithKeys(image: Image, dir: nat, pages: seq<LoadPage>, s: Slot)
    ensures s in ImageWith(image, dir, pages) <==>
      s in image || exists i :: 0 <= i < |pages| && PageOf(pages[i].virt).pd >= IDENTITY_TABLES && s == SlotOf(dir, pages[i].virt)
  {
    if pages != [] {
      ImageWithKeys(image, dir, pages[..|pages| - 1], s);
    }
  }

  lemma NoPagesDistinct()
    ensures PagesDistinct([])
  {
  }

  lemma OneMoreDistinct(pages: seq<LoadPage>)
    requires pages != []
    ensures var before, last := pages[..|pages| - 1], pages[|pages| - 1];
      PagesDistinct(pages) <==> (PagesDistinct(before) && PageOf(last.virt).pd >= IDENTITY_TABLES &&
        forall i :: 0 <= i < |before| ==> PageOf(before[i].virt) != PageOf(last.virt))
  {
    var before := pages[..|pages| - 1];
    assert forall i :: 0 <= i < |before| ==> before[i] == pages[i];
  }

  /** Into an empty address space, a load leaks nothing exactly when its pages are distinct user pages. */
  lemma {:induction false} LeakFree(image: Image, dir: nat, pages: seq<LoadPage>)
    requires forall s <- image :: s.dir != dir
    ensures NoLeaks(image, dir, pages) <==> PagesDistinct(pages)
  {
    hide PagesDistinct, PageOf;
    if pages == [] { NoPagesDistinct(); }
    if pages != [] {
      var before, last := pages[..|pages| - 1], pages[|pages| - 1];
      LeakFree(image, dir, before);
      ImageWithKeys(image, dir, before, SlotOf(dir, last.virt));
      OneMoreDistinct(pages);
    }
  }

  /** Other address spaces are not touched. */
  lemma {:induction false} OthersKept(image: Image, dir: nat, pages: seq<LoadPage>, s: Slot)
    requires s.dir != dir
    ensures s in ImageWith(image, dir, pages) <==> s in image
    ensures s in image ==> ImageWith(image, dir, pages)[s] == image[s]
  {
    if pages != [] {
      OthersKept(image, dir, pages[..|pages| - 1], s);
    }
  }

  /** How far a load has come. */
  ghost predicate LoadedSoFar(x0: Memory, x: Memory, dir: nat, done: seq<LoadPage>) {
    && SameElsewhere(x0.m, x.m, dir) && x.image == ImageWith(x0.image, dir, done)
    && HeldGrows(x0.held, x.held) && (x.held == x0.held <==> NoLeaks(x0.image, dir, done))
    && (Settled(x0, dir) ==> Settled(x, dir)) && HandedOut(x0, x)
    && TableIndexes(x.m, dir) == TableIndexes(x0.m, dir) + TablesOf(done)
    && |FreeFrames(x.counts, x.reserved)| + FramesToLoad(done, TableIndexes(x0.m, dir)) == |FreeFrames(x0.counts, x0.reserved)|
  }

  lemma LoadedOneMore(x0: Memory, x: Memory, y: Memory, dir: nat, done: seq<LoadPage>, page: LoadPage)
    requires LoadedSoFar(x0, x, dir, done) && SameElsewhere(x.m, y.m, dir)
    requires y.image == WithPage(x.image, dir, page) && HeldGrows(x.held, y.held)
    requires y.held == x.held <==> !Leaks(x.image, SlotOf(dir, page.virt))
    requires Settled(x, dir) ==> Settled(y, dir)
    requires HandedOut(x, y)
    requires TableIndexes(y.m, dir) == TableIndexes(x.m, dir) + UserTable(page.virt)
    requires |FreeFrames(y.counts, y.reserved)|
          == |FreeFrames(x.counts, x.reserved)| - 1 - |UserTable(page.virt) - TableIndexes(x.m, dir)|
    ensures LoadedSoFar(x0, y, dir, done + [page])
  {
    hide Settled, TableIndexes, FreeFrames, FramesToLoad, UserTable, HandedOut, WithPage, Leaks;
    FramesForOneMore(done, TableIndexes(x0.m, dir), page);
    HandedOutOn(x0, x, y);
    assert (done + [page])[..|done + [page]| - 1] == done;
    if y.held == x0.held {
      forall f: nat | f < MAX_FRAMES ensures x.held[f] == x0.held[f] { }
      assert x.held == x0.held;
    }
  }

  /** A page that cannot be loaded is one that the frames do not suffice for. */
  lemma OutOfFramesAt(x0: Memory, x: Memory, dir: nat, done: seq<LoadPage>, page: LoadPage)
    requires LoadedSoFar(x0, x, dir, done)
    requires |FreeFrames(x.counts, x.reserved)| <= |UserTable(page.virt) - TableIndexes(x.m, dir)|
    ensures |FreeFrames(x0.counts, x0.reserved)| < FramesToLoad(done + [page], TableIndexes(x0.m, dir))
  {
    FramesForOneMore(done, TableIndexes(x0.m, dir), page);
    hide TableIndexes, FreeFrames, FramesToLoad, UserTable, TablesOf;
  }

  datatype LoadResult = Success(entry: nat) | BadFile | NoMemory | NoTableMemory

  /** The page loop of one PT_LOAD segment. */
  method LoadSegment(mem: AddressSpaces, elf: seq<bv8>, seg: Segment, dir: nat, ghost x0: Memory, ghost before: seq<LoadPage>)
    returns (status: Status, ghost done: seq<LoadPage>)
    requires mem.Valid() && dir in mem.m.dirs && LoadedSoFar(x0, mem.Now(), dir, before)
    modifies mem, mem.ram, mem.pmm, mem.pmm.frameBitmap, mem.pmm.frameRefcount
    ensures mem.Valid() && mem.m.dirs == old(mem.m.dirs)
    ensures before <= done <= before + SegmentPages(elf, seg)
    ensures status.Done? ==> done == before + SegmentPages(elf, seg)
    ensures !status.NoTable? ==> LoadedSoFar(x0, mem.Now(), dir, done)
    ensures mem.image == ImageWith(x0.image, dir, done)
    ensures status.OutOfMemory? ==> mem.pmm.Free() == {}
    ensures !status.Done? ==>
      |FreeFrames(x0.counts, x0.reserved)| < FramesToLoad(before + SegmentPages(elf, seg), TableIndexes(x0.m, dir))
  {
    hide Sound, PageImage, LoadedSoFar, HeldGrows, ImageWith, WithPage, Leaks, NoLeaks, PageCount, PageAddress, Settled, HandedOut;
    hide TableIndexes, FreeFrames, FramesToLoad, UserTable, TablesOf, SameElsewhere, SlotOf;
    PagesOnly(seg);
    ghost var pages := SegmentPages(elf, seg);
    done := before;
    SoFarImage(x0, mem.Now(), dir, done);
    for p := 0 to PageCount(seg)
      invariant mem.Valid() && dir in mem.m.dirs && mem.m.dirs == old(mem.m.dirs)
      invariant LoadedSoFar(x0, mem.Now(), dir, done) && done == before + pages[..p]
      invariant mem.image == ImageWith(x0.image, dir, done)
    {
      ghost var x := mem.Now();
      status := LoadOnePage(mem, elf, seg, dir, PageAddress(seg, p));
      if !status.Done? {
        OutOfFramesAt(x0, x, dir, done, pages[p]);
        FramesForSegment(before, pages, p, TableIndexes(x0.m, dir));
        return;
      }
      LoadedOneMore(x0, x, mem.Now(), dir, done, pages[p]);
      NextPages(before, pages, p);
      done := done + [pages[p]];
      SoFarImage(x0, mem.Now(), dir, done);
    }
    return Done, done;
  }

  lemma NextPages(before: seq<LoadPage>, pages: seq<LoadPage>, p: nat)
    requires p < |pages|
    ensures before + pages[..p] + [pages[p]] == before + pages[..p + 1] == (before + pages)[..|before| + p + 1]
  {
    assert pages[..p + 1] == pages[..p] + [pages[p]];
  }

  lemma FramesForSegment(before: seq<LoadPage>, pages: seq<LoadPage>, p: nat, have: set<nat>)
    requires p < |pages|
    ensures FramesToLoad(before + pages[..p] + [pages[p]], have) <= FramesToLoad(before + pages, have)
  {
    NextPages(before, pages, p);
    FramesForPrefix(before + pages, |before| + p + 1, have);
  }

  lemma PagesOnly(seg: Segment)
    ensures forall p: nat :: PageAddress(seg, p) < 0x1_0000_0000
  {
  }

  lemma SoFarImage(x0: Memory, x: Memory, dir: nat, done: seq<LoadPage>)
    requires LoadedSoFar(x0, x, dir, done)
    ensures x.image == ImageWith(x0.image, dir, done) && x.m.dirs == x0.m.dirs
  {
  }

  /** elf_load: all pages of all PT_LOAD segments, in order, or as many as memory allows. */
  method ElfLoad(mem: AddressSpaces, elf: seq<bv8>, dir: nat) returns (r: LoadResult, ghost done: seq<LoadPage>)
    requires mem.Valid() && dir in mem.m.dirs
    modifies mem, mem.ram, mem.pmm, mem.pmm.frameBitmap, mem.pmm.frameRefcount
    ensures mem.Valid() && mem.m.dirs == old(mem.m.dirs)
    ensures r.BadFile? <==> !IsElf32(elf)
    ensures r.BadFile? ==> mem.Now() == old(mem.Now())
    ensures r.Success? ==> r.entry == EntryPoint(elf) && done == PagesToLoad(elf, SegmentCount(elf))
    ensures done <= PagesToLoad(elf, SegmentCount(elf))
    ensures mem.image == ImageWith(old(mem.image), dir, done)
    ensures r.Success? <==>
      IsElf32(elf) && FramesToLoad(PagesToLoad(elf, SegmentCount(elf)), TableIndexes(old(mem.m), dir)) <= |old(mem.pmm.Free())|
    ensures r.Success? ==> TableIndexes(mem.m, dir) == TableIndexes(old(mem.m), dir) + TablesOf(done)
    ensures r.Success? ==> |mem.pmm.Free()| + FramesToLoad(done, TableIndexes(old(mem.m), dir)) == |old(mem.pmm.Free())|
    ensures !r.NoTableMemory? ==> SameElsewhere(old(mem.m), mem.m, dir)
    ensures !r.NoTableMemory? ==> (mem.held == old(mem.held) <==> NoLeaks(old(mem.image), dir, done))
    ensures !r.NoTableMemory? ==> HeldGrows(old(mem.held), mem.held)
    ensures !r.NoTableMemory? ==> HandedOut(old(mem.Now()), mem.Now())
    ensures r.NoMemory? ==> mem.pmm.Free() == {}
    ensures !r.NoTableMemory? && old(Settled(mem.Now(), dir)) ==> Settled(mem.Now(), dir)
  {
    hide Sound, PageImage, HeldGrows, LoadedSoFar, ImageWith, NoLeaks, SegmentAt, SegmentPages, SameElsewhere, Settled, HandedOut;
    hide TableIndexes, FreeFrames, FramesToLoad, TablesOf;
    ghost var x0 := mem.Now();
    done := [];
    StartLoad(x0, dir);
    SoFarImage(x0, x0, dir, []);
    SoFarHeld(x0, x0, dir, []);
    if !(FileByte(elf, 0) == 0x7F && FileByte(elf, 1) == 0x45 && FileByte(elf, 2) == 0x4C && FileByte(elf, 3) == 0x46) {
      return BadFile, [];
    }
    if FileByte(elf, 4) != 1 { return BadFile, []; }
    for i := 0 to SegmentCount(elf)
      invariant mem.Valid() && dir in mem.m.dirs && mem.m.dirs == old(mem.m.dirs)
      invariant LoadedSoFar(x0, mem.Now(), dir, done) && done == PagesToLoad(elf, i)
    {
      if SegmentAt(elf, i).kind != PT_LOAD { continue; }
      var status;
      status, done := LoadSegment(mem, elf, SegmentAt(elf, i), dir, x0, PagesToLoad(elf, i));
      if !status.Done? {
        PagesPrefix(elf, i + 1, SegmentCount(elf));
        ghost var all, upTo := PagesToLoad(elf, SegmentCount(elf)), PagesToLoad(elf, i + 1);
        assert upTo == PagesToLoad(elf, i) + SegmentPages(elf, SegmentAt(elf, i)) == all[..|upTo|];
        FramesForPrefix(all, |upTo|, TableIndexes(x0.m, dir));
        r := if status.OutOfMemory? then NoMemory else NoTableMemory;
        if status.OutOfMemory? { SoFarHeld(x0, mem.Now(), dir, done); }
        return;
      }
    }
    SoFarImage(x0, mem.Now(), dir, done);
    SoFarHeld(x0, mem.Now(), dir, done);
    return Success(EntryPoint(elf)), done;
  }

  lemma SoFarHeld(x0: Memory, x: Memory, dir: nat, done: seq<LoadPage>)
    requires LoadedSoFar(x0, x, dir, done)
    ensures SameElsewhere(x0.m, x.m, dir)
    ensures HeldGrows(x0.held, x.held) && (x.held == x0.held <==> NoLeaks(x0.image, dir, done))
    ensures (Settled(x0, dir) ==> Settled(x, dir)) && HandedOut(x0, x)
    ensures TableIndexes(x.m, dir) == TableIndexes(x0.m, dir) + TablesOf(done)
    ensures |FreeFrames(x.counts, x.reserved)| + FramesToLoad(done, TableIndexes(x0.m, dir)) == |FreeFrames(x0.counts, x0.reserved)|
  {
    hide TableIndexes, FreeFrames, FramesToLoad, HandedOut;
  }

  lemma StartLoad(x0: Memory, dir: nat)
    ensures LoadedSoFar(x0, x0, dir, [])
  {
  }

  lemma {:induction false} PagesPrefix(elf: seq<bv8>, i: nat, n: nat)
    requires i <= n
    ensures PagesToLoad(elf, i) <= PagesToLoad(elf, n)
  {
    if i < n { PagesPrefix(elf, i, n - 1); }
  }
}
