/** Two-level page tables as they lie in physical memory (Intel SDM volume 3A, section 4.3), the
    layout they describe, and what the layout means to the programs that run in it.

    A 32-bit entry is the pair of its frame number (bits 31..12) and its low twelve flag bits. A
    physical frame holds whatever was last written to it: page-table entries or bytes. Read as bytes,
    an entry is four of them, the lowest first. The kernel reads as entries only what it wrote as such. */
module PageTables {
  import opened Pmm

  const ENTRIES := 1024
  const IDENTITY_TABLES := 16
  const IDENTITY_FRAMES := IDENTITY_TABLES * ENTRIES

  const PRESENT: bv12 := 0x001
  const RW: bv12 := 0x002
  const USER: bv12 := 0x004
  const COW: bv12 := 0x200

  /** The only two flag patterns a user page ever has: present, writable, user; or present, user,
      copy-on-write. */
  const OWNED: bv12 := 0x007
  const SHARED: bv12 := 0x205

  datatype Pte = Pte(frame: nat, flags: bv12) {
    predicate Present() { flags & PRESENT != 0 }
  }

  const NO_PTE := Pte(0, 0)

  function ZeroTable(): seq<Pte> { seq(ENTRIES, _ => NO_PTE) }
  function JunkTable(): seq<Pte> { seq(ENTRIES, _ => Pte(0xFFFFF, 0xFFF)) }
  function ZeroBytes(): seq<bv8> { seq(FRAME_SIZE, _ => 0) }

  /** An entry as a 32-bit word, and its bytes from the lowest on. */
  function WordOf(e: Pte): nat { (e.frame * 0x1000 + e.flags as nat) % 0x1_0000_0000 }

  function AsByte(n: nat): (b: bv8)
    requires n < 256
    ensures b as nat == n
  {
    if n == 0 then 0 else AsByte(n - 1) + 1
  }

  function WordByte(w: nat, i: nat): bv8 {
    AsByte((if i == 0 then w else if i == 1 then w / 0x100 else if i == 2 then w / 0x1_0000 else w / 0x100_0000) % 0x100)
  }

  /** The words of the entries that are written: a page of a program's own is present, writable and the user's (7), a shared one is
      present, the user's and marked with the first of the bits left to software (0x205), and one of the kernel's is present and
      writable (3). */
  lemma EntryWords(f: nat)
    requires f < 0x10_0000
    ensures WordOf(Pte(f, OWNED)) == f * 4096 + 7 && WordOf(Pte(f, SHARED)) == f * 4096 + 0x205
    ensures WordOf(Pte(f, KERNEL_FLAGS)) == f * 4096 + 3 && WordOf(NO_PTE) == 0
  {
    assert OWNED as nat == 7 && SHARED as nat == 0x205 && KERNEL_FLAGS as nat == 3;
  }

  /** The four bytes of a word, the least first. */
  lemma WordBytes(w: nat)
    requires w < 0x1_0000_0000
    ensures WordByte(w, 0) as nat + 256 * WordByte(w, 1) as nat + 65536 * WordByte(w, 2) as nat + 16777216 * WordByte(w, 3) as nat == w
  {
    hide AsByte;
    assert w / 0x1_0000 == w / 0x100 / 0x100;
    assert w / 0x100_0000 == w / 0x1_0000 / 0x100;
  }

  function TableBytes(entries: seq<Pte>): (bytes: seq<bv8>)
    requires |entries| == ENTRIES
    ensures |bytes| == FRAME_SIZE
  {
    seq(FRAME_SIZE, o requires 0 <= o < FRAME_SIZE => WordByte(WordOf(entries[o / 4]), o % 4))
  }

  /** A physical frame: 1024 entries or 4096 bytes. */
  datatype Frame = Table(entries: seq<Pte>) | Page(bytes: seq<bv8>)

  function Entries(f: Frame): (entries: seq<Pte>)
    ensures |entries| == ENTRIES
  {
    if f.Table? && |f.entries| == ENTRIES then f.entries else JunkTable()
  }

  function Contents(f: Frame): (bytes: seq<bv8>)
    ensures |bytes| == FRAME_SIZE
  {
    if f.Page? && |f.bytes| == FRAME_SIZE then f.bytes else OtherBytes(f)
  }

  function OtherBytes(f: Frame): (bytes: seq<bv8>)
    ensures |bytes| == FRAME_SIZE
  {
    if f.Table? && |f.entries| == ENTRIES then TableBytes(f.entries) else ZeroBytes()
  }

  lemma NoEntryBytes()
    ensures forall i: nat :: WordByte(WordOf(NO_PTE), i) == 0
  {
    assert WordOf(NO_PTE) == 0;
  }

  /** A table of which every entry has been cleared reads as zeros. */
  lemma ClearedTable(entries: seq<Pte>)
    requires |entries| == ENTRIES && forall e <- entries :: e == NO_PTE
    ensures Contents(Table(entries)) == ZeroBytes()
  {
    NoEntryBytes();
    hide AsByte, WordByte, WordOf;
    forall o: nat | o < FRAME_SIZE
      ensures TableBytes(entries)[o] == 0
    {
      assert entries[o / 4] in entries;
    }
  }

  /** The bytes of a frame, by number. */
  function BytesAt(ram: Ram, f: nat): seq<bv8> { if f < MAX_FRAMES then Contents(ram[f]) else ZeroBytes() }

  type Ram = r: seq<Frame> | |r| == MAX_FRAMES witness seq(MAX_FRAMES, _ => Page([]))

  // ---------------------------------------------------------------- virtual addresses

  /** A user page, by its directory index and its table index. */
  datatype VPage = VPage(pd: nat, pt: nat)

  function PageOf(virt: nat): VPage { VPage(virt / 0x40_0000, virt / FRAME_SIZE % ENTRIES) }
  function AddressOf(p: VPage): nat { p.pd * 0x40_0000 + p.pt * FRAME_SIZE }
  function OffsetOf(virt: nat): nat { virt % FRAME_SIZE }

  /** The page walk splits an address into a page and an offset without loss. */
  lemma AddressSplits(virt: nat)
    requires virt < 0x1_0000_0000
    ensures PageOf(virt).pd < 1024 && PageOf(virt).pt < 1024 && OffsetOf(virt) < 4096
    ensures virt == PageOf(virt).pd * 0x40_0000 + PageOf(virt).pt * 4096 + OffsetOf(virt) == AddressOf(PageOf(virt)) + OffsetOf(virt)
  {
  }

  lemma AddressJoins(p: VPage, offset: nat)
    requires p.pt < ENTRIES && offset < FRAME_SIZE
    ensures PageOf(AddressOf(p) + offset) == p && OffsetOf(AddressOf(p) + offset) == offset
  {
  }

  // ---------------------------------------------------------------- the layout

  datatype Slot = Slot(dir: nat, page: VPage)
  datatype TableSlot = TableSlot(dir: nat, pd: nat)

  /** The live directories, the user page tables they point to (and for each table's frame, the one
      place that points to it), and the user pages those map. */
  datatype Layout = Layout(
    dirs: set<nat>,
    tables: map<TableSlot, nat>,
    owner: map<nat, TableSlot>,
    leaves: map<Slot, Pte>)

  /** A frame that nothing in the layout refers to as a directory or a table. */
  ghost predicate NoStructure(m: Layout, f: nat) { f !in m.dirs && f !in m.owner }

  ghost predicate WellFormed(m: Layout) {
    && (forall d <- m.dirs :: d < MAX_FRAMES && d !in m.owner)
    && (forall k <- m.tables :: k.dir in m.dirs && IDENTITY_TABLES <= k.pd < ENTRIES)
    && (forall k <- m.tables :: m.tables[k] in m.owner && m.owner[m.tables[k]] == k)
    && (forall f <- m.owner :: f < MAX_FRAMES && m.owner[f] in m.tables && m.tables[m.owner[f]] == f)
    && (forall s <- m.leaves :: TableSlot(s.dir, s.page.pd) in m.tables && s.page.pt < ENTRIES)
    && (forall s <- m.leaves :: m.leaves[s].frame < MAX_FRAMES && NoStructure(m, m.leaves[s].frame))
  }

  function TableEntry(m: Layout, d: nat, pd: nat): Pte {
    if TableSlot(d, pd) in m.tables then Pte(m.tables[TableSlot(d, pd)], OWNED) else NO_PTE
  }

  function LeafEntry(m: Layout, d: nat, pd: nat, pt: nat): Pte {
    if Slot(d, VPage(pd, pt)) in m.leaves then m.leaves[Slot(d, VPage(pd, pt))] else NO_PTE
  }

  ghost predicate DirsAgree(ram: Ram, kernel: seq<Pte>, m: Layout)
    requires WellFormed(m) && |kernel| == ENTRIES
  {
    forall d, i :: d in m.dirs && 0 <= i < ENTRIES ==>
      Entries(ram[d])[i] == if i < IDENTITY_TABLES then kernel[i] else TableEntry(m, d, i)
  }

  ghost predicate TablesAgree(ram: Ram, m: Layout)
    requires WellFormed(m)
  {
    forall k, i :: k in m.tables && 0 <= i < ENTRIES ==> Entries(ram[m.tables[k]])[i] == LeafEntry(m, k.dir, k.pd, i)
  }

  /** Memory holds exactly this layout: kernel entries first in every directory, then the tables. */
  ghost predicate Agrees(ram: Ram, kernel: seq<Pte>, m: Layout)
    requires WellFormed(m) && |kernel| == ENTRIES
  {
    DirsAgree(ram, kernel, m) && TablesAgree(ram, m)
  }

  // ---------------------------------------------------------------- reference counts

  function LeafUses(m: Layout, f: nat): set<Slot> { set s <- m.leaves | m.leaves[s].frame == f }

  function Uses(m: Layout, f: nat): nat {
    (if f in m.dirs then 1 else 0) + (if f in m.owner then 1 else 0) + |LeafUses(m, f)|
  }

  /** References to frames that come from outside the user page tables: the heap, a frame on its way
      into a table, a frame that leaked. One number per frame. */
  type Tally = h: seq<nat> | |h| == MAX_FRAMES witness seq(MAX_FRAMES, _ => 0)

  /** Every reference counted as an outside one. */
  function AsTally(counts: Counts): Tally { seq(MAX_FRAMES, f requires 0 <= f < MAX_FRAMES => counts[f]) }

  function Hold(held: Tally, f: nat): Tally
    requires f < MAX_FRAMES
  {
    held[f := held[f] + 1]
  }

  /** Every reference count is the number of uses of the frame in the layout plus the outside
      references to it. */
  ghost predicate Balanced(counts: Counts, held: Tally, m: Layout) {
    forall f: nat {:trigger counts[f]} {:trigger Uses(m, f)} :: f < MAX_FRAMES ==> counts[f] == Uses(m, f) + held[f]
  }

  // ---------------------------------------------------------------- copy-on-write

  /** A user page is either writable by its only mapper, or marked copy-on-write by all of them; and
      all mappers of a frame map it at the same virtual page. */
  ghost predicate CopyOnWrite(m: Layout) {
    && (forall s <- m.leaves :: m.leaves[s].flags == OWNED || m.leaves[s].flags == SHARED)
    && (forall s <- m.leaves, t <- m.leaves :: m.leaves[s].frame == m.leaves[t].frame ==> s.page == t.page)
    && (forall s <- m.leaves :: m.leaves[s].flags == OWNED ==> LeafUses(m, m.leaves[s].frame) == {s})
  }

  /** A directory's pages lie in the frames they lay in before, or in frames of their own. */
  ghost predicate Inherits(m: Layout, m': Layout, d: nat) {
    forall t <- m'.leaves :: t.dir == d ==>
      LeafUses(m', m'.leaves[t].frame) == {t} || (t in m.leaves && m.leaves[t].frame == m'.leaves[t].frame)
  }

  function LeavesAt(m: Layout, d: nat): map<Slot, Pte> { map s <- m.leaves | s.dir == d :: m.leaves[s] }
  function TablesAt(m: Layout, d: nat): map<TableSlot, nat> { map k <- m.tables | k.dir == d :: m.tables[k] }

  /** One address space is as it was. */
  ghost predicate KeptAt(m: Layout, m': Layout, d: nat) { LeavesAt(m', d) == LeavesAt(m, d) && TablesAt(m', d) == TablesAt(m, d) }

  // ---------------------------------------------------------------- what programs see

  /** The bytes of every mapped page of every live address space. */
  type Image = map<Slot, seq<bv8>>

  /** The image is what the page walk reads out of memory. */
  ghost predicate Shows(ram: Ram, m: Layout, image: Image) {
    image.Keys == m.leaves.Keys && forall s <- m.leaves :: image[s] == BytesAt(ram, m.leaves[s].frame)
  }

  // ---------------------------------------------------------------- one entry at a time

  function WithEntry(ram: Ram, f: nat, i: nat, e: Pte): Ram {
    if f < MAX_FRAMES && i < ENTRIES then ram[f := Table(Entries(ram[f])[i := e])] else ram
  }

  function WithLeaf(m: Layout, s: Slot, e: Pte): Layout {
    if e == NO_PTE then m.(leaves := m.leaves - {s}) else m.(leaves := m.leaves[s := e])
  }

  /** A frame that nothing in the layout refers to. */
  ghost predicate Unused(m: Layout, f: nat) { NoStructure(m, f) && forall s <- m.leaves :: m.leaves[s].frame != f }

  lemma LeafWellFormed(m: Layout, s: Slot, e: Pte)
    requires WellFormed(m)
    requires TableSlot(s.dir, s.page.pd) in m.tables && s.page.pt < ENTRIES
    requires e != NO_PTE ==> e.frame < MAX_FRAMES && NoStructure(m, e.frame)
    ensures WellFormed(WithLeaf(m, s, e))
  {
  }

  lemma LeafWritten(ram: Ram, kernel: seq<Pte>, m: Layout, s: Slot, e: Pte)
    requires WellFormed(m) && |kernel| == ENTRIES && Agrees(ram, kernel, m)
    requires TableSlot(s.dir, s.page.pd) in m.tables && s.page.pt < ENTRIES
    requires e != NO_PTE ==> e.frame < MAX_FRAMES && NoStructure(m, e.frame)
    ensures WellFormed(WithLeaf(m, s, e))
    ensures Agrees(WithEntry(ram, m.tables[TableSlot(s.dir, s.page.pd)], s.page.pt, e), kernel, WithLeaf(m, s, e))
  {
    LeafWellFormed(m, s, e);
    var k := TableSlot(s.dir, s.page.pd);
    var ram', m' := WithEntry(ram, m.tables[k], s.page.pt, e), WithLeaf(m, s, e);
    forall d, i | d in m'.dirs && 0 <= i < ENTRIES
      ensures Entries(ram'[d])[i] == if i < IDENTITY_TABLES then kernel[i] else TableEntry(m', d, i)
    {
      assert Entries(ram[d])[i] == if i < IDENTITY_TABLES then kernel[i] else TableEntry(m, d, i);
    }
    forall l, i | l in m'.tables && 0 <= i < ENTRIES
      ensures Entries(ram'[m'.tables[l]])[i] == LeafEntry(m', l.dir, l.pd, i)
    {
      assert Entries(ram[m.tables[l]])[i] == LeafEntry(m, l.dir, l.pd, i);
      if l != k {
        assert ram'[m.tables[l]] == ram[m.tables[l]];
      }
    }
  }

  function WithTable(m: Layout, k: TableSlot, t: nat): Layout {
    m.(tables := m.tables[k := t], owner := m.owner[t := k])
  }

  lemma TableAdded(ram: Ram, kernel: seq<Pte>, m: Layout, k: TableSlot, t: nat)
    requires WellFormed(m) && |kernel| == ENTRIES && Agrees(ram, kernel, m)
    requires k.dir in m.dirs && IDENTITY_TABLES <= k.pd < ENTRIES && k !in m.tables
    requires t < MAX_FRAMES && Unused(m, t)
    ensures WellFormed(WithTable(m, k, t))
    ensures Agrees(WithEntry(ram[t := Table(ZeroTable())], k.dir, k.pd, Pte(t, OWNED)), kernel, WithTable(m, k, t))
  {
    var ram', m' := WithEntry(ram[t := Table(ZeroTable())], k.dir, k.pd, Pte(t, OWNED)), WithTable(m, k, t);
    forall d, i | d in m'.dirs && 0 <= i < ENTRIES
      ensures Entries(ram'[d])[i] == if i < IDENTITY_TABLES then kernel[i] else TableEntry(m', d, i)
    {
      assert Entries(ram[d])[i] == if i < IDENTITY_TABLES then kernel[i] else TableEntry(m, d, i);
    }
    forall l, i | l in m'.tables && 0 <= i < ENTRIES
      ensures Entries(ram'[m'.tables[l]])[i] == LeafEntry(m', l.dir, l.pd, i)
    {
      assert m'.tables[l] != k.dir;
      if l == k {
        assert Slot(k.dir, VPage(k.pd, i)) !in m.leaves;
      } else {
        assert Entries(ram[m.tables[l]])[i] == LeafEntry(m, l.dir, l.pd, i);
      }
    }
  }

  function WithoutTable(m: Layout, k: TableSlot): Layout
    requires k in m.tables
  {
    m.(tables := m.tables - {k}, owner := m.owner - {m.tables[k]})
  }

  lemma TableRemoved(ram: Ram, kernel: seq<Pte>, m: Layout, k: TableSlot)
    requires WellFormed(m) && |kernel| == ENTRIES && Agrees(ram, kernel, m)
    requires k in m.tables && forall s <- m.leaves :: TableSlot(s.dir, s.page.pd) != k
    ensures WellFormed(WithoutTable(m, k))
    ensures Agrees(WithEntry(ram, k.dir, k.pd, NO_PTE), kernel, WithoutTable(m, k))
  {
    var ram', m' := WithEntry(ram, k.dir, k.pd, NO_PTE), WithoutTable(m, k);
    forall d, i | d in m'.dirs && 0 <= i < ENTRIES
      ensures Entries(ram'[d])[i] == if i < IDENTITY_TABLES then kernel[i] else TableEntry(m', d, i)
    {
      assert Entries(ram[d])[i] == if i < IDENTITY_TABLES then kernel[i] else TableEntry(m, d, i);
    }
    forall l, i | l in m'.tables && 0 <= i < ENTRIES
      ensures Entries(ram'[m'.tables[l]])[i] == LeafEntry(m', l.dir, l.pd, i)
    {
      assert Entries(ram[m.tables[l]])[i] == LeafEntry(m, l.dir, l.pd, i);
    }
  }

  function WithDir(m: Layout, d: nat): Layout { m.(dirs := m.dirs + {d}) }

  lemma DirAdded(ram: Ram, kernel: seq<Pte>, m: Layout, d: nat)
    requires WellFormed(m) && |kernel| == ENTRIES && Agrees(ram, kernel, m)
    requires forall i :: IDENTITY_TABLES <= i < ENTRIES ==> kernel[i] == NO_PTE
    requires d < MAX_FRAMES && Unused(m, d)
    ensures WellFormed(WithDir(m, d))
    ensures Agrees(ram[d := Table(kernel)], kernel, WithDir(m, d))
  {
    var ram', m' := ram[d := Table(kernel)], WithDir(m, d);
    forall c, i | c in m'.dirs && 0 <= i < ENTRIES
      ensures Entries(ram'[c])[i] == if i < IDENTITY_TABLES then kernel[i] else TableEntry(m', c, i)
    {
      assert c != d ==> Entries(ram[c])[i] == if i < IDENTITY_TABLES then kernel[i] else TableEntry(m, c, i);
    }
  }

  function WithoutDir(m: Layout, d: nat): Layout { m.(dirs := m.dirs - {d}) }

  lemma DirRemoved(ram: Ram, kernel: seq<Pte>, m: Layout, d: nat)
    requires WellFormed(m) && |kernel| == ENTRIES && Agrees(ram, kernel, m)
    requires forall k <- m.tables :: k.dir != d
    ensures WellFormed(WithoutDir(m, d))
    ensures Agrees(ram, kernel, WithoutDir(m, d))
  {
    var m' := WithoutDir(m, d);
    forall c, i | c in m'.dirs && 0 <= i < ENTRIES
      ensures Entries(ram[c])[i] == if i < IDENTITY_TABLES then kernel[i] else TableEntry(m', c, i)
    {
      assert Entries(ram[c])[i] == if i < IDENTITY_TABLES then kernel[i] else TableEntry(m, c, i);
    }
  }

  lemma DataWritten(ram: Ram, kernel: seq<Pte>, m: Layout, f: nat, x: Frame)
    requires WellFormed(m) && |kernel| == ENTRIES && Agrees(ram, kernel, m)
    requires f < MAX_FRAMES && NoStructure(m, f)
    ensures Agrees(ram[f := x], kernel, m)
  {
  }

  // ---------------------------------------------------------------- counting

  lemma LeafUsesChange(m: Layout, s: Slot, e: Pte, f: nat)
    ensures LeafUses(WithLeaf(m, s, e), f)
         == (LeafUses(m, f) - {s}) + if e != NO_PTE && e.frame == f then {s} else {}
  {
  }

  /** Whether an entry refers to a frame, as a number. */
  function Refers(e: Pte, f: nat): nat { if e != NO_PTE && e.frame == f then 1 else 0 }

  function EntryAt(m: Layout, s: Slot): Pte { if s in m.leaves then m.leaves[s] else NO_PTE }

  lemma UsesWithLeaf(m: Layout, s: Slot, e: Pte, f: nat)
    requires s in m.leaves ==> m.leaves[s] != NO_PTE
    ensures Uses(WithLeaf(m, s, e), f) == Uses(m, f) - Refers(EntryAt(m, s), f) + Refers(e, f)
  {
    LeafUsesChange(m, s, e, f);
    var others := LeafUses(m, f) - {s};
    assert LeafUses(m, f) == if Refers(EntryAt(m, s), f) == 1 then others + {s} else others;
  }

  /** Writing one leaf entry keeps the balance when the counts, less the outside references, move by
      what the old entry gave up and the new one took. */
  lemma BalancedWithLeaf(counts: Counts, held: Tally, m: Layout, s: Slot, e: Pte, counts': Counts, held': Tally)
    requires Balanced(counts, held, m)
    requires s in m.leaves ==> m.leaves[s] != NO_PTE
    requires forall f: nat :: f < MAX_FRAMES ==>
      counts'[f] - held'[f] == counts[f] - held[f] - Refers(EntryAt(m, s), f) + Refers(e, f)
    ensures Balanced(counts', held', WithLeaf(m, s, e))
  {
    forall f: nat | f < MAX_FRAMES
      ensures counts'[f] == Uses(WithLeaf(m, s, e), f) + held'[f]
    {
      UsesWithLeaf(m, s, e, f);
    }
  }

  /** A layout with its outside references fixes every count. */
  lemma CountsDetermined(counts: Counts, counts': Counts, held: Tally, m: Layout, m': Layout)
    requires Balanced(counts, held, m) && Balanced(counts', held, m')
    requires m.dirs == m'.dirs && m.owner.Keys == m'.owner.Keys && m.leaves.Keys == m'.leaves.Keys
    requires forall s <- m.leaves :: m.leaves[s].frame == m'.leaves[s].frame
    ensures counts == counts'
  {
    forall f: nat | f < MAX_FRAMES
      ensures counts[f] == counts'[f]
    {
      assert LeafUses(m, f) == LeafUses(m', f);
    }
  }

  // ---------------------------------------------------------------- copy-on-write, one entry at a time

  lemma CowWithLeaf(m: Layout, s: Slot, e: Pte)
    requires CopyOnWrite(m)
    requires e != NO_PTE ==> e.flags == OWNED || e.flags == SHARED
    requires e != NO_PTE ==> forall t <- m.leaves :: t != s && m.leaves[t].frame == e.frame ==>
        t.page == s.page && e.flags == SHARED && m.leaves[t].flags == SHARED
    ensures CopyOnWrite(WithLeaf(m, s, e))
  {
    var m' := WithLeaf(m, s, e);
    forall t <- m'.leaves | m'.leaves[t].flags == OWNED
      ensures LeafUses(m', m'.leaves[t].frame) == {t}
    {
      LeafUsesChange(m, s, e, m'.leaves[t].frame);
    }
  }

  /** All other mappers of a copy-on-write page's frame are copy-on-write too. */
  lemma OthersShared(m: Layout, s: Slot, t: Slot)
    requires CopyOnWrite(m) && s in m.leaves && t in m.leaves && s != t && m.leaves[s].frame == m.leaves[t].frame
    ensures m.leaves[s].flags == SHARED && m.leaves[t].flags == SHARED && s.page == t.page
  {
    assert s in LeafUses(m, m.leaves[s].frame) && t in LeafUses(m, m.leaves[s].frame);
  }

  // ---------------------------------------------------------------- everything at once

  /** All that the operations on address spaces read and write: physical memory, the kernel's own
      directory, the frames never handed out, the reference counts, and what they stand for. */
  datatype Memory = Memory(
    ram: Ram,
    kernel: seq<Pte>,
    reserved: set<nat>,
    counts: Counts,
    held: Tally,
    m: Layout,
    image: Image)

  const KERNEL_FLAGS: bv12 := 0x003

  /** The kernel half: sixteen tables of their own in reserved frames, and no entry above them. They map every frame
      that can be handed out at its own address; only addresses of reserved frames may have been remapped, as the
      heap's are. All frames above the identity map are reserved. */
  ghost predicate KernelHalf(ram: Ram, kernel: seq<Pte>, reserved: set<nat>) {
    && |kernel| == ENTRIES
    && (forall i :: 0 <= i < IDENTITY_TABLES ==>
          kernel[i].flags == KERNEL_FLAGS && kernel[i].frame in reserved && kernel[i].frame < IDENTITY_FRAMES)
    && (forall i, j :: 0 <= i < j < IDENTITY_TABLES ==> kernel[i].frame != kernel[j].frame)
    && (forall i :: IDENTITY_TABLES <= i < ENTRIES ==> kernel[i] == NO_PTE)
    && (forall i, j :: 0 <= i < IDENTITY_TABLES && 0 <= j < ENTRIES ==>
          Entries(ram[kernel[i].frame])[j].flags == KERNEL_FLAGS)
    && (forall i, j :: 0 <= i < IDENTITY_TABLES && 0 <= j < ENTRIES ==>
          Entries(ram[kernel[i].frame])[j].frame == i * ENTRIES + j || i * ENTRIES + j in reserved)
    && (forall f: nat :: IDENTITY_FRAMES <= f < MAX_FRAMES ==> f in reserved)
  }

  /** What holds between any two operations on address spaces. */
  ghost predicate Sound(x: Memory) {
    && KernelHalf(x.ram, x.kernel, x.reserved) && Uncounted(x.counts, x.reserved)
    && WellFormed(x.m) && Agrees(x.ram, x.kernel, x.m)
    && Balanced(x.counts, x.held, x.m)
    && CopyOnWrite(x.m)
    && Shows(x.ram, x.m, x.image)
  }

  lemma KernelKept(ram: Ram, kernel: seq<Pte>, reserved: set<nat>, f: nat, frame: Frame)
    requires KernelHalf(ram, kernel, reserved) && f < MAX_FRAMES && f !in reserved
    ensures KernelHalf(ram[f := frame], kernel, reserved)
  {
  }

  lemma SoundAtBoot(ram: Ram, kernel: seq<Pte>, reserved: set<nat>, counts: Counts)
    requires KernelHalf(ram, kernel, reserved) && Uncounted(counts, reserved)
    ensures Sound(Memory(ram, kernel, reserved, counts, AsTally(counts), Layout({}, map[], map[], map[]), map[]))
  {
  }

  lemma UseCounts(counts: Counts, held: Tally, m: Layout, f: nat)
    requires Balanced(counts, held, m) && f < MAX_FRAMES
    ensures counts[f] == 0 ==> Unused(m, f) && held[f] == 0
    ensures !Unused(m, f) ==> counts[f] > 0
  {
    assert counts[f] == Uses(m, f) + held[f];
    forall s <- m.leaves | m.leaves[s].frame == f
      ensures counts[f] > 0
    {
      assert s in LeafUses(m, f);
    }
  }

  /** Every frame the layout names is referenced, hence not reserved, hence inside the identity map. */
  lemma Reachable(x: Memory, f: nat)
    requires Sound(x) && f < MAX_FRAMES && (!Unused(x.m, f) || x.counts[f] > 0)
    ensures x.counts[f] > 0 && f !in x.reserved && f < IDENTITY_FRAMES
  {
    hide Agrees, CopyOnWrite, Shows;
    UseCounts(x.counts, x.held, x.m, f);
  }

  /** The kernel finds every frame in use at its own address, so it may read and write frames by number. */
  lemma IdentityMapped(x: Memory, f: nat)
    requires Sound(x) && f < MAX_FRAMES && x.counts[f] > 0
    ensures f < IDENTITY_FRAMES && x.kernel[f / ENTRIES].frame < IDENTITY_FRAMES
    ensures Entries(x.ram[x.kernel[f / ENTRIES].frame])[f % ENTRIES] == Pte(f, KERNEL_FLAGS)
  {
    Reachable(x, f);
    hide Agrees, CopyOnWrite, Shows, Balanced, WellFormed;
    var i, j := f / ENTRIES, f % ENTRIES;
    assert f == i * ENTRIES + j && 0 <= i < IDENTITY_TABLES;
    assert Entries(x.ram[x.kernel[i].frame])[j].frame == i * ENTRIES + j;
  }

  /** One entry of a kernel table rewritten, at the address of a reserved frame. */
  function KernelEntryStep(x: Memory, i: nat, j: nat, e: Pte): Memory
    requires i < |x.kernel|
  {
    x.(ram := WithEntry(x.ram, x.kernel[i].frame, j, e))
  }

  /** An entry that keeps the identity map for every frame that can be handed out. */
  predicate KernelEntryFits(reserved: set<nat>, i: nat, j: nat, e: Pte) {
    e.flags == KERNEL_FLAGS && (i * ENTRIES + j in reserved || e.frame == i * ENTRIES + j)
  }

  /** Remapping a kernel page is safe exactly when no frame lying at its address can be handed out. */
  lemma KernelEntryStepSound(x: Memory, i: nat, j: nat, e: Pte)
    requires Sound(x) && i < IDENTITY_TABLES && j < ENTRIES
    ensures i < |x.kernel| && x.kernel[i].frame < IDENTITY_FRAMES
    ensures Sound(KernelEntryStep(x, i, j, e)) <==> KernelEntryFits(x.reserved, i, j, e)
  {
    var t := x.kernel[i].frame;
    UseCounts(x.counts, x.held, x.m, t);
    var ram' := WithEntry(x.ram, t, j, e);
    KernelEntryKept(x.ram, x.kernel, x.reserved, i, j, e);
    hide KernelHalf, Balanced, CopyOnWrite;
    DataWritten(x.ram, x.kernel, x.m, t, ram'[t]);
    StructureShown(x.ram, x.m, x.image, ram', x.m);
  }

  lemma KernelEntryKept(ram: Ram, kernel: seq<Pte>, reserved: set<nat>, i: nat, j: nat, e: Pte)
    requires KernelHalf(ram, kernel, reserved) && i < IDENTITY_TABLES && j < ENTRIES
    ensures KernelHalf(WithEntry(ram, kernel[i].frame, j, e), kernel, reserved) <==> KernelEntryFits(reserved, i, j, e)
  {
    var ram' := WithEntry(ram, kernel[i].frame, j, e);
    forall a, b | 0 <= a < IDENTITY_TABLES && 0 <= b < ENTRIES
      ensures Entries(ram'[kernel[a].frame])[b] == if a == i && b == j then e else Entries(ram[kernel[a].frame])[b]
    {
      assert a < i ==> kernel[a].frame != kernel[i].frame;
      assert i < a ==> kernel[i].frame != kernel[a].frame;
    }
    assert Entries(ram'[kernel[i].frame])[j] == e;
  }

  /** The first 64 MiB lie at their own addresses. */
  ghost predicate IdentityMap(ram: Ram, kernel: seq<Pte>) {
    && |kernel| == ENTRIES && (forall i :: 0 <= i < IDENTITY_TABLES ==> kernel[i].frame < IDENTITY_FRAMES)
    && (forall i, j :: 0 <= i < IDENTITY_TABLES && 0 <= j < ENTRIES ==>
          Entries(ram[kernel[i].frame])[j] == Pte(i * ENTRIES + j, KERNEL_FLAGS))
  }

  /** The kernel finds each of the first 16384 frames, 64 MiB, at its own address. */
  lemma IdentityAt(ram: Ram, kernel: seq<Pte>, f: nat)
    requires IdentityMap(ram, kernel) && f < 16384
    ensures kernel[f / 1024].frame < MAX_FRAMES && Entries(ram[kernel[f / 1024].frame])[f % 1024] == Pte(f, 3)
  {
    assert f == f / 1024 * 1024 + f % 1024;
  }

  // ---------------------------------------------------------------- between operations

  /** No frame that the page tables use is referenced from outside them. */
  ghost predicate HeldApart(held: Tally, m: Layout) {
    && (forall d <- m.dirs :: d < MAX_FRAMES ==> held[d] == 0)
    && (forall k <- m.tables :: m.tables[k] < MAX_FRAMES ==> held[m.tables[k]] == 0)
    && (forall s <- m.leaves :: m.leaves[s].frame < MAX_FRAMES ==> held[m.leaves[s].frame] == 0)
  }

  ghost predicate HasPage(m: Layout, k: TableSlot) { exists s <- m.leaves :: s.dir == k.dir && s.page.pd == k.pd }

  /** Every page table maps something. */
  ghost predicate TablesUsed(m: Layout) { forall k <- m.tables :: HasPage(m, k) }

  /** What also holds when no operation is under way. */
  ghost predicate Tidy(x: Memory) { HeldApart(x.held, x.m) && TablesUsed(x.m) }

  /** Tables stay in use while no page goes and every new table gets one. */
  lemma TablesStayUsed(m: Layout, m': Layout)
    requires TablesUsed(m) && m.leaves.Keys <= m'.leaves.Keys
    requires forall k <- m'.tables :: k in m.tables || HasPage(m', k)
    ensures TablesUsed(m')
  {
    forall k <- m'.tables | k in m.tables
      ensures HasPage(m', k)
    {
      assert HasPage(m, k);
    }
  }

  /** A frame that can be handed out is neither used nor held. */
  lemma FreeUnheld(x: Memory, f: nat)
    requires Sound(x) && f in FreeFrames(x.counts, x.reserved)
    ensures f < MAX_FRAMES && Unused(x.m, f) && x.held[f] == 0
  {
    UseCounts(x.counts, x.held, x.m, f);
  }

  lemma UnusedHeld(held: Tally, m: Layout, n: nat)
    requires WellFormed(m) && HeldApart(held, m) && n < MAX_FRAMES && Unused(m, n)
    ensures HeldApart(Hold(held, n), m)
  {
  }

  /** Every reference count is the number of uses alone: one for a directory or a table, which is nothing else, and
      one for each page entry, over all live directories, that maps the frame. */
  ghost predicate CountsExact(counts: Counts, m: Layout) {
    forall f: nat :: f < MAX_FRAMES ==>
      (!NoStructure(m, f) ==> counts[f] == 1 && LeafUses(m, f) == {}) && (LeafUses(m, f) != {} ==> counts[f] == |LeafUses(m, f)|)
  }

  lemma TidyCounts(x: Memory)
    requires Sound(x) && Tidy(x)
    ensures CountsExact(x.counts, x.m)
  {
    hide KernelHalf, Agrees, CopyOnWrite, Shows, Uncounted;
    forall f: nat | f < MAX_FRAMES
      ensures !NoStructure(x.m, f) ==> x.counts[f] == 1 && LeafUses(x.m, f) == {}
      ensures LeafUses(x.m, f) != {} ==> x.counts[f] == |LeafUses(x.m, f)|
    {
      assert x.counts[f] == Uses(x.m, f) + x.held[f];
      if LeafUses(x.m, f) != {} {
        var s :| s in LeafUses(x.m, f);
        assert x.m.leaves[s].frame == f && NoStructure(x.m, f) && !Unused(x.m, f);
      }
    }
  }

  /** What the page walk finds in memory: the directory entry, then the table entry. */
  lemma Walk(x: Memory, d: nat, p: VPage)
    requires Sound(x) && d in x.m.dirs && p.pd < ENTRIES && p.pt < ENTRIES
    ensures d < IDENTITY_FRAMES && Entries(x.ram[d])[p.pd].frame < IDENTITY_FRAMES
    ensures p.pd < IDENTITY_TABLES ==> Entries(x.ram[d])[p.pd].flags == KERNEL_FLAGS
    ensures p.pd < IDENTITY_TABLES ==> Entries(x.ram[Entries(x.ram[d])[p.pd].frame])[p.pt].flags == KERNEL_FLAGS
    ensures p.pd >= IDENTITY_TABLES ==> Entries(x.ram[d])[p.pd] == TableEntry(x.m, d, p.pd)
    ensures p.pd >= IDENTITY_TABLES && TableSlot(d, p.pd) in x.m.tables ==>
      Entries(x.ram[Entries(x.ram[d])[p.pd].frame])[p.pt] == LeafEntry(x.m, d, p.pd, p.pt)
  {
    hide Balanced, CopyOnWrite, Shows;
    Reachable(x, d);
    if TableSlot(d, p.pd) in x.m.tables {
      Reachable(x, x.m.tables[TableSlot(d, p.pd)]);
    }
    assert Entries(x.ram[d])[p.pd] == if p.pd < IDENTITY_TABLES then x.kernel[p.pd] else TableEntry(x.m, d, p.pd);
  }

  // ---------------------------------------------------------------- the steps

  /** The image after a leaf entry is written. */
  function Mapped(ram: Ram, image: Image, s: Slot, e: Pte): Image {
    if e == NO_PTE then image - {s} else image[s := BytesAt(ram, e.frame)]
  }

  /** Writing one leaf entry, with the counts and outside references that go with it. */
  function LeafStep(x: Memory, s: Slot, e: Pte, counts: Counts, held: Tally): Memory {
    x.(ram := WithEntry(x.ram, TableEntry(x.m, s.dir, s.page.pd).frame, s.page.pt, e),
       counts := counts, held := held, m := WithLeaf(x.m, s, e), image := Mapped(x.ram, x.image, s, e))
  }

  /** An entry may be written into a slot without breaking copy-on-write. */
  ghost predicate MayMap(m: Layout, s: Slot, e: Pte) {
    e != NO_PTE ==>
      && e.frame < MAX_FRAMES && NoStructure(m, e.frame)
      && (e.flags == OWNED || e.flags == SHARED)
      && (forall t <- m.leaves :: t != s && m.leaves[t].frame == e.frame ==>
            t.page == s.page && e.flags == SHARED && m.leaves[t].flags == SHARED)
  }

  lemma LeafStepSound(x: Memory, s: Slot, e: Pte, counts: Counts, held: Tally)
    requires Sound(x)
    requires TableSlot(s.dir, s.page.pd) in x.m.tables && s.page.pt < ENTRIES
    requires MayMap(x.m, s, e) && Uncounted(counts, x.reserved)
    requires forall f: nat :: f < MAX_FRAMES ==>
      counts[f] - held[f] == x.counts[f] - x.held[f] - Refers(EntryAt(x.m, s), f) + Refers(e, f)
    ensures Sound(LeafStep(x, s, e, counts, held))
  {
    hide KernelHalf, Agrees, Balanced, Shows;
    var t := x.m.tables[TableSlot(s.dir, s.page.pd)];
    Reachable(x, t);
    KernelKept(x.ram, x.kernel, x.reserved, t, Table(Entries(x.ram[t])[s.page.pt := e]));
    KernelSize(x.ram, x.kernel, x.reserved);
    LeafWritten(x.ram, x.kernel, x.m, s, e);
    BalancedWithLeaf(x.counts, x.held, x.m, s, e, counts, held);
    CowWithLeaf(x.m, s, e);
    ShowsLeaf(x.ram, t, s.page.pt, x.m, x.image, s, e);
  }

  lemma KernelSize(ram: Ram, kernel: seq<Pte>, reserved: set<nat>)
    requires KernelHalf(ram, kernel, reserved)
    ensures |kernel| == ENTRIES && forall i :: IDENTITY_TABLES <= i < ENTRIES ==> kernel[i] == NO_PTE
  {
  }

  lemma ShowsLeaf(ram: Ram, t: nat, i: nat, m: Layout, image: Image, s: Slot, e: Pte)
    requires Shows(ram, m, image) && t < MAX_FRAMES && i < ENTRIES
    requires e != NO_PTE ==> e.frame != t
    requires forall u <- m.leaves :: m.leaves[u].frame != t
    ensures Shows(WithEntry(ram, t, i, e), WithLeaf(m, s, e), Mapped(ram, image, s, e))
  {
  }

  /** A new, empty page table in frame t. */
  function TableStep(x: Memory, k: TableSlot, t: nat): Memory
    requires t < MAX_FRAMES
  {
    x.(ram := WithEntry(x.ram[t := Table(ZeroTable())], k.dir, k.pd, Pte(t, OWNED)),
       counts := x.counts[t := 1], m := WithTable(x.m, k, t))
  }

  lemma TableStepSound(x: Memory, k: TableSlot, t: nat)
    requires Sound(x) && k.dir in x.m.dirs && IDENTITY_TABLES <= k.pd < ENTRIES && k !in x.m.tables
    requires t in FreeFrames(x.counts, x.reserved)
    ensures Sound(TableStep(x, k, t))
  {
    hide KernelHalf, Agrees, Balanced, Shows;
    UseCounts(x.counts, x.held, x.m, t);
    Reachable(x, k.dir);
    KernelKept(x.ram, x.kernel, x.reserved, t, Table(ZeroTable()));
    var ram := x.ram[t := Table(ZeroTable())];
    KernelKept(ram, x.kernel, x.reserved, k.dir, Table(Entries(ram[k.dir])[k.pd := Pte(t, OWNED)]));
    KernelSize(x.ram, x.kernel, x.reserved);
    TableAdded(x.ram, x.kernel, x.m, k, t);
    StructureBalanced(x.counts, x.held, x.m, WithTable(x.m, k, t), t, x.counts[t := 1]);
    StructureShown(x.ram, x.m, x.image, TableStep(x, k, t).ram, WithTable(x.m, k, t));
  }

  /** A directory or table frame comes or goes, and its count with it. */
  lemma StructureBalanced(counts: Counts, held: Tally, m: Layout, m': Layout, f: nat, counts': Counts)
    requires Balanced(counts, held, m) && f < MAX_FRAMES && m'.leaves == m.leaves
    requires forall g: nat :: g != f ==> (g in m.dirs <==> g in m'.dirs) && (g in m.owner <==> g in m'.owner)
    requires counts' == counts[f := counts'[f]]
    requires f !in m.dirs && f !in m.owner && (f in m'.dirs) != (f in m'.owner) ==> counts'[f] as int == counts[f] as int + 1
    requires f !in m'.dirs && f !in m'.owner && (f in m.dirs) != (f in m.owner) ==> counts'[f] as int == counts[f] as int - 1
    requires (f in m.dirs || f in m.owner) != (f in m'.dirs || f in m'.owner)
    requires !(f in m.dirs && f in m.owner) && !(f in m'.dirs && f in m'.owner)
    ensures Balanced(counts', held, m')
    ensures CopyOnWrite(m) ==> CopyOnWrite(m')
  {
    forall g: nat | g < MAX_FRAMES
      ensures counts'[g] == Uses(m', g) + held[g]
    {
      assert LeafUses(m, g) == LeafUses(m', g);
    }
    forall s <- m.leaves
      ensures LeafUses(m', m.leaves[s].frame) == LeafUses(m, m.leaves[s].frame)
    {
    }
  }

  lemma StructureShown(ram: Ram, m: Layout, image: Image, ram': Ram, m': Layout)
    requires Shows(ram, m, image) && m'.leaves == m.leaves
    requires forall s <- m.leaves :: BytesAt(ram', m.leaves[s].frame) == BytesAt(ram, m.leaves[s].frame)
    ensures Shows(ram', m', image)
  {
  }

  /** A page table without pages is taken out of its directory and its frame dropped. */
  function NoTableStep(x: Memory, k: TableSlot): Memory
    requires k in x.m.tables
  {
    x.(ram := WithEntry(x.ram, k.dir, k.pd, NO_PTE), counts := Drop(x.counts, x.m.tables[k]), m := WithoutTable(x.m, k))
  }

  lemma NoTableStepSound(x: Memory, k: TableSlot)
    requires Sound(x) && k in x.m.tables && forall s <- x.m.leaves :: TableSlot(s.dir, s.page.pd) != k
    ensures Sound(NoTableStep(x, k))
  {
    hide KernelHalf, Agrees, Balanced, Shows;
    var t := x.m.tables[k];
    Reachable(x, t);
    Reachable(x, k.dir);
    KernelKept(x.ram, x.kernel, x.reserved, k.dir, Table(Entries(x.ram[k.dir])[k.pd := NO_PTE]));
    KernelSize(x.ram, x.kernel, x.reserved);
    TableRemoved(x.ram, x.kernel, x.m, k);
    StructureBalanced(x.counts, x.held, x.m, WithoutTable(x.m, k), t, Drop(x.counts, t));
    StructureShown(x.ram, x.m, x.image, NoTableStep(x, k).ram, WithoutTable(x.m, k));
  }

  /** A new directory in frame d, a copy of the kernel's. */
  function DirStep(x: Memory, d: nat): Memory
    requires d < MAX_FRAMES
  {
    x.(ram := x.ram[d := Table(x.kernel)], counts := x.counts[d := 1], m := WithDir(x.m, d))
  }

  lemma DirStepSound(x: Memory, d: nat)
    requires Sound(x) && d in FreeFrames(x.counts, x.reserved)
    ensures d !in x.m.dirs && Sound(DirStep(x, d))
  {
    hide KernelHalf, Agrees, Balanced, Shows;
    UseCounts(x.counts, x.held, x.m, d);
    KernelKept(x.ram, x.kernel, x.reserved, d, Table(x.kernel));
    KernelSize(x.ram, x.kernel, x.reserved);
    DirAdded(x.ram, x.kernel, x.m, d);
    StructureBalanced(x.counts, x.held, x.m, WithDir(x.m, d), d, x.counts[d := 1]);
    StructureShown(x.ram, x.m, x.image, DirStep(x, d).ram, WithDir(x.m, d));
  }

  lemma DirStepTidy(x: Memory, d: nat)
    requires Sound(x) && Tidy(x) && d in FreeFrames(x.counts, x.reserved)
    ensures Tidy(DirStep(x, d))
  {
    FreeUnheld(x, d);
    hide Sound, FreeFrames, Unused, HasPage;
    TablesStayUsed(x.m, WithDir(x.m, d));
    hide TablesUsed;
  }

  /** A directory without user tables is dropped. */
  function NoDirStep(x: Memory, d: nat): Memory {
    x.(counts := Drop(x.counts, d), m := WithoutDir(x.m, d))
  }

  lemma NoDirStepSound(x: Memory, d: nat)
    requires Sound(x) && d in x.m.dirs && forall k <- x.m.tables :: k.dir != d
    ensures Sound(NoDirStep(x, d))
  {
    hide KernelHalf, Agrees, Balanced, Shows;
    Reachable(x, d);
    KernelSize(x.ram, x.kernel, x.reserved);
    DirRemoved(x.ram, x.kernel, x.m, d);
    StructureBalanced(x.counts, x.held, x.m, WithoutDir(x.m, d), d, Drop(x.counts, d));
    StructureShown(x.ram, x.m, x.image, x.ram, WithoutDir(x.m, d));
  }

  /** Writing a referenced frame that nobody maps is invisible. */
  lemma ScratchStepSound(x: Memory, f: nat, frame: Frame)
    requires Sound(x) && f < MAX_FRAMES && x.counts[f] > 0 && Unused(x.m, f)
    ensures Sound(x.(ram := x.ram[f := frame]))
  {
    hide KernelHalf, Agrees, Balanced, Shows, CopyOnWrite;
    Reachable(x, f);
    KernelKept(x.ram, x.kernel, x.reserved, f, frame);
    KernelSize(x.ram, x.kernel, x.reserved);
    DataWritten(x.ram, x.kernel, x.m, f, frame);
    StructureShown(x.ram, x.m, x.image, x.ram[f := frame], x.m);
  }

  /** Writing the bytes of a frame with one mapper changes that mapper's page and nothing else. */
  lemma DataStepSound(x: Memory, s: Slot, bytes: seq<bv8>)
    requires Sound(x) && s in x.m.leaves && LeafUses(x.m, x.m.leaves[s].frame) == {s} && |bytes| == FRAME_SIZE
    ensures Sound(x.(ram := x.ram[x.m.leaves[s].frame := Page(bytes)], image := x.image[s := bytes]))
  {
    hide KernelHalf, Agrees, Balanced, CopyOnWrite;
    var f := x.m.leaves[s].frame;
    Reachable(x, f);
    KernelKept(x.ram, x.kernel, x.reserved, f, Page(bytes));
    KernelSize(x.ram, x.kernel, x.reserved);
    DataWritten(x.ram, x.kernel, x.m, f, Page(bytes));
    assert forall u <- x.m.leaves :: u != s ==> u !in LeafUses(x.m, f);
  }
}
