/** Stores by the kernel through a program's mapping: where copy-on-write stops being eager copying, and exactly when. */
module KernelStores {
  import opened Pmm
  import opened PageTables
  import opened Paging
  import opened Fork
  import opened UserAccess

  /** What the programs read after the kernel writes a byte through a program's mapping. The processor
      lets ring 0 write read-only pages (CR0.WP is clear), so no fault occurs and no copy is made: every
      mapper of the frame sees the byte. The wait system call stores its status this way. */
  function KernelPoked(x: Memory, s: Slot, offset: nat, b: bv8): Image
    requires s in x.m.leaves && x.image.Keys == x.m.leaves.Keys && offset < FRAME_SIZE
    requires forall u <- x.image :: |x.image[u]| == FRAME_SIZE
  {
    map u <- x.image :: if x.m.leaves[u].frame == x.m.leaves[s].frame then x.image[u][offset := b] else x.image[u]
  }

  /** Two pages that lie in one frame. */
  predicate SameFrame(m: Layout, s: Slot, u: Slot) { s in m.leaves && u in m.leaves && m.leaves[u].frame == m.leaves[s].frame }

  lemma ImageShape(x: Memory)
    requires Sound(x)
    ensures x.image.Keys == x.m.leaves.Keys && forall u <- x.image :: |x.image[u]| == FRAME_SIZE
  {
    hide KernelHalf, Agrees, Balanced, CopyOnWrite, Uncounted;
  }

  /** A kernel store behaves like the program's own store exactly when the page's frame has one mapper,
      or the byte was there already. */
  lemma KernelStoreIsolated(x: Memory, s: Slot, offset: nat, b: bv8)
    requires Sound(x) && s in x.m.leaves && offset < FRAME_SIZE
    ensures x.image.Keys == x.m.leaves.Keys && forall u <- x.image :: |x.image[u]| == FRAME_SIZE
    ensures KernelPoked(x, s, offset, b) == Poke(x.image, s, offset, b) <==>
      LeafUses(x.m, x.m.leaves[s].frame) == {s} || x.image[s][offset] == b
  {
    ImageShape(x);
    SameFrameSameBytes(x, s);
    hide Sound;
    if LeafUses(x.m, x.m.leaves[s].frame) == {s} {
      PokedAlone(x, s, offset, b);
    } else if x.image[s][offset] == b {
      PokedSame(x, s, offset, b);
    } else {
      OtherMapper(x, s);
      var u :| u in LeafUses(x.m, x.m.leaves[s].frame) && u != s;
      PokedShared(x, s, u, offset, b);
    }
  }

  lemma SameFrameSameBytes(x: Memory, s: Slot)
    requires Sound(x) && s in x.m.leaves
    ensures x.image.Keys == x.m.leaves.Keys
    ensures forall u <- x.m.leaves :: x.m.leaves[u].frame == x.m.leaves[s].frame ==> x.image[u] == x.image[s]
  {
    hide KernelHalf, Agrees, Balanced, CopyOnWrite, Uncounted;
  }

  lemma PokedAlone(x: Memory, s: Slot, offset: nat, b: bv8)
    requires s in x.m.leaves && x.image.Keys == x.m.leaves.Keys && offset < FRAME_SIZE
    requires forall u <- x.image :: |x.image[u]| == FRAME_SIZE
    requires LeafUses(x.m, x.m.leaves[s].frame) == {s}
    ensures KernelPoked(x, s, offset, b) == Poke(x.image, s, offset, b)
  {
    assert forall u <- x.image :: u != s ==> u !in LeafUses(x.m, x.m.leaves[s].frame);
  }

  lemma PokedSame(x: Memory, s: Slot, offset: nat, b: bv8)
    requires s in x.m.leaves && x.image.Keys == x.m.leaves.Keys && offset < FRAME_SIZE
    requires forall u <- x.image :: |x.image[u]| == FRAME_SIZE
    requires forall u <- x.m.leaves :: x.m.leaves[u].frame == x.m.leaves[s].frame ==> x.image[u] == x.image[s]
    requires x.image[s][offset] == b
    ensures KernelPoked(x, s, offset, b) == Poke(x.image, s, offset, b)
  {
    assert x.image[s][offset := b] == x.image[s];
  }

  lemma PokedShared(x: Memory, s: Slot, u: Slot, offset: nat, b: bv8)
    requires s in x.m.leaves && x.image.Keys == x.m.leaves.Keys && offset < FRAME_SIZE
    requires forall u <- x.image :: |x.image[u]| == FRAME_SIZE
    requires u in x.m.leaves && u != s && x.m.leaves[u].frame == x.m.leaves[s].frame && x.image[u] == x.image[s]
    requires x.image[s][offset] != b
    ensures KernelPoked(x, s, offset, b) != Poke(x.image, s, offset, b)
  {
    assert KernelPoked(x, s, offset, b)[u][offset] == b;
    assert Poke(x.image, s, offset, b)[u][offset] != b;
  }

  lemma OtherMapper(x: Memory, s: Slot)
    requires s in x.m.leaves && LeafUses(x.m, x.m.leaves[s].frame) != {s}
    ensures exists u :: u in LeafUses(x.m, x.m.leaves[s].frame) && u != s
  {
    assert s in LeafUses(x.m, x.m.leaves[s].frame);
  }

  /** The kernel's store of one byte at a user address. */
  method KernelStore(mem: AddressSpaces, dir: nat, virt: nat, b: bv8) returns (ok: bool)
    requires mem.Valid() && dir in mem.m.dirs && IDENTITY_TABLES <= PageOf(virt).pd && virt < 0x1_0000_0000
    modifies mem, mem.ram
    ensures ok <==> SlotOf(dir, virt) in mem.m.leaves
    ensures !ok ==> mem.Now() == old(mem.Now())
    ensures mem.Valid() && mem.m == old(mem.m) && mem.held == old(mem.held)
    ensures ok ==> old(mem.image.Keys == mem.m.leaves.Keys && forall u <- mem.image :: |mem.image[u]| == FRAME_SIZE)
    ensures ok ==> mem.image == KernelPoked(old(mem.Now()), SlotOf(dir, virt), OffsetOf(virt), b)
  {
    hide Sound;
    ghost var x, s := mem.Now(), SlotOf(dir, virt);
    ImageShape(x);
    AddressSplits(virt);
    var t := Translate(mem, dir, virt);
    if t.Missing? { return false; }
    ghost var bytes := Contents(mem.ram[t.frame])[OffsetOf(virt) := b];
    KernelStoreSound(x, s, OffsetOf(virt), b);
    mem.ram[t.frame] := Page(Contents(mem.ram[t.frame])[OffsetOf(virt) := b]);
    mem.image := KernelPoked(x, s, OffsetOf(virt), b);
    assert mem.Now() == x.(ram := x.ram[t.frame := Page(bytes)], image := mem.image);
    return true;
  }

  lemma KernelStoreSound(x: Memory, s: Slot, offset: nat, b: bv8)
    requires Sound(x) && s in x.m.leaves && offset < FRAME_SIZE
    requires x.image.Keys == x.m.leaves.Keys && forall u <- x.image :: |x.image[u]| == FRAME_SIZE
    ensures x.m.leaves[s].frame < MAX_FRAMES
    ensures Sound(x.(ram := x.ram[x.m.leaves[s].frame := Page(Contents(x.ram[x.m.leaves[s].frame])[offset := b])],
                     image := KernelPoked(x, s, offset, b)))
  {
    hide KernelHalf, Agrees, Balanced, CopyOnWrite, Uncounted;
    LeafFacts(x, s);
    var f := x.m.leaves[s].frame;
    Reachable(x, f);
    var frame := Page(Contents(x.ram[f])[offset := b]);
    KernelKept(x.ram, x.kernel, x.reserved, f, frame);
    KernelSize(x.ram, x.kernel, x.reserved);
    DataWritten(x.ram, x.kernel, x.m, f, frame);
  }
}
