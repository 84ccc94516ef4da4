/** The physical frame allocator of kernel/pmm.c: one bit per 4 KiB frame, and one 8-bit reference
    count per frame. A physical frame address is FRAME_SIZE times the frame's number; the methods
    take and return the number. Number 0, like address 0, means "no frame". */
module Pmm {
  import opened Bytes

  const FRAME_SIZE := 4096
  const MAX_FRAMES := 32768
  const LOW_MEMORY_FRAMES := 0x100000 / FRAME_SIZE


  // ---------------------------------------------------------------- the bitmap

  /** The byte 1 << i. */
  function Mask(i: nat): bv8
    requires i < 8
  {
    if i == 0 then 0x01 else if i == 1 then 0x02 else if i == 2 then 0x04 else if i == 3 then 0x08
    else if i == 4 then 0x10 else if i == 5 then 0x20 else if i == 6 then 0x40 else 0x80
  }

  lemma MaskIsShift(i: nat)
    requires i < 8
    ensures Mask(i) == 1 << i
  {
    assert i == 0 || i == 1 || i == 2 || i == 3 || i == 4 || i == 5 || i == 6 || i == 7;
  }

  predicate Bit(bitmap: seq<bv8>, frame: nat)
    requires |bitmap| == MAX_FRAMES / 8 && frame < MAX_FRAMES
  {
    bitmap[frame / 8] & Mask(frame % 8) != 0
  }

  /** The bitmap marks exactly the frames in `used`. */
  ghost predicate Marks(bitmap: seq<bv8>, used: set<nat>) {
    && |bitmap| == MAX_FRAMES / 8
    && (forall f: nat {:trigger Bit(bitmap, f)} :: f < MAX_FRAMES ==> (Bit(bitmap, f) <==> f in used))
    && used <= FramesBelow(MAX_FRAMES)
  }

  lemma MasksDisjoint(i: nat, j: nat)
    requires i < 8 && j < 8
    ensures Mask(i) != 0
    ensures i != j ==> Mask(i) & Mask(j) == 0
  {
  }

  /** Setting or clearing the bits of one mask leaves a disjoint mask's bits alone. */
  lemma ByteUpdate(b: bv8, m: bv8, n: bv8)
    requires m != 0 && (m == n || m & n == 0)
    ensures (b | m) & n != 0 <==> m == n || b & n != 0
    ensures (b & !m) & n != 0 <==> m != n && b & n != 0
  {
  }

  lemma SetAt(before: seq<bv8>, after: seq<bv8>, frame: nat, f: nat)
    requires |before| == MAX_FRAMES / 8 && frame < MAX_FRAMES && f < MAX_FRAMES
    requires after == before[frame / 8 := before[frame / 8] | Mask(frame % 8)]
    ensures Bit(after, f) <==> f == frame || Bit(before, f)
  {
    if f / 8 == frame / 8 {
      MasksDisjoint(frame % 8, f % 8);
      ByteUpdate(before[frame / 8], Mask(frame % 8), Mask(f % 8));
    }
  }

  lemma ClearAt(before: seq<bv8>, after: seq<bv8>, frame: nat, f: nat)
    requires |before| == MAX_FRAMES / 8 && frame < MAX_FRAMES && f < MAX_FRAMES
    requires after == before[frame / 8 := before[frame / 8] & !Mask(frame % 8)]
    ensures Bit(after, f) <==> f != frame && Bit(before, f)
  {
    if f / 8 == frame / 8 {
      MasksDisjoint(frame % 8, f % 8);
      ByteUpdate(before[frame / 8], Mask(frame % 8), Mask(f % 8));
    }
  }

  predicate Below(f: nat, n: nat) { f < n }

  /** The frames 0 .. n-1. */
  function FramesBelow(n: nat): (frames: set<nat>) {
    set f: nat | f < n && Below(f, n)
  }

  lemma {:induction false} CountFramesBelow(n: nat)
    ensures |FramesBelow(n)| == n
  {
    if n == 0 {
      assert FramesBelow(0) == {};
    } else {
      CountFramesBelow(n - 1);
      assert FramesBelow(n) == FramesBelow(n - 1) + {n - 1};
    }
  }

  // ---------------------------------------------------------------- what the allocator promises

  /** Reference counts, one per frame. */
  type Counts = c: seq<Byte> | |c| == MAX_FRAMES witness seq(MAX_FRAMES, _ => 0)

  /** The frames that may be handed out: not reserved at boot and referenced by nobody. */
  function FreeFrames(counts: Counts, reserved: set<nat>): set<nat> {
    set f: nat | f < MAX_FRAMES && f !in reserved && counts[f] == 0
  }

  /** Dropping one reference; a frame nobody references is left alone. */
  function Drop(counts: Counts, frame: nat): Counts {
    if frame < MAX_FRAMES && counts[frame] > 0 then counts[frame := counts[frame] - 1] else counts
  }

  lemma Smaller<T>(a: set<T>, b: set<T>)
    requires a <= b
    ensures |a| <= |b|
  {
    assert b == a + (b - a);
  }

  lemma FreeAfterUpdate(counts: Counts, reserved: set<nat>, frame: nat, count: Byte)
    requires frame < MAX_FRAMES && frame !in reserved
    ensures FreeFrames(counts[frame := count], reserved)
         == if count == 0 then FreeFrames(counts, reserved) + {frame} else FreeFrames(counts, reserved) - {frame}
  {
  }

  /** Nobody holds a reference to a reserved frame. */
  ghost predicate Uncounted(counts: Counts, reserved: set<nat>) {
    forall f <- reserved :: f < MAX_FRAMES ==> counts[f] == 0
  }

  lemma DropFrees(counts: Counts, reserved: set<nat>, frame: nat)
    requires Uncounted(counts, reserved)
    ensures Uncounted(Drop(counts, frame), reserved)
    ensures var free, free' := FreeFrames(counts, reserved), FreeFrames(Drop(counts, frame), reserved);
      free' == if frame < MAX_FRAMES && counts[frame] == 1 then free + {frame} else free
    ensures frame < MAX_FRAMES && counts[frame] == 1 ==>
      FramesBelow(MAX_FRAMES) - FreeFrames(Drop(counts, frame), reserved) == FramesBelow(MAX_FRAMES) - FreeFrames(counts, reserved) - {frame}
  {
  }

  lemma LowestFree(counts: Counts, reserved: set<nat>, used: set<nat>, i: nat)
    requires used == FramesBelow(MAX_FRAMES) - FreeFrames(counts, reserved) && i < MAX_FRAMES && i !in used && FramesBelow(i) <= used
    ensures i in FreeFrames(counts, reserved) && forall g <- FreeFrames(counts, reserved) :: i <= g
  {
    assert i in FramesBelow(MAX_FRAMES);
    forall g <- FreeFrames(counts, reserved) ensures i <= g { assert g < i ==> g in FramesBelow(i); }
  }

  lemma FreeAtBoot(counts: Counts, reserved: set<nat>)
    requires forall f: nat :: f < MAX_FRAMES ==> counts[f] == 0
    ensures FreeFrames(counts, reserved) == FramesBelow(MAX_FRAMES) - reserved
  {
  }

  // ---------------------------------------------------------------- the boot memory map

  /** One entry of the bootloader's memory map. */
  datatype MmapEntry = MmapEntry(addr: nat, len: nat, available: bool) {
    function StartFrame(): nat { addr / FRAME_SIZE % 0x1_0000_0000 }
    function EndFrame(): nat { (StartFrame() + len / FRAME_SIZE % 0x1_0000_0000) % 0x1_0000_0000 }
    predicate Offers(frame: nat) { available && StartFrame() <= frame < EndFrame() }
  }

  /** The frames that no entry of the memory map offers. */
  ghost function Withheld(mmap: seq<MmapEntry>): set<nat> {
    set f <- FramesBelow(MAX_FRAMES) | forall e <- mmap :: !e.Offers(f)
  }

  lemma WithheldStep(mmap: seq<MmapEntry>, i: nat)
    requires i < |mmap|
    ensures Withheld(mmap[..i + 1]) == Withheld(mmap[..i]) - set f <- FramesBelow(MAX_FRAMES) | mmap[i].Offers(f)
  {
    assert mmap[..i + 1] == mmap[..i] + [mmap[i]];
    assert mmap[i] in mmap[..i + 1];
    assert forall e <- mmap[..i + 1] :: e in mmap[..i] || e == mmap[i];
  }

  /** The frames that are never handed out: low memory, the kernel image, and whatever no entry of
      the memory map offers. */
  ghost function ReservedAtBoot(mmap: seq<MmapEntry>, kernelStart: nat, kernelEnd: nat): set<nat> {
    Withheld(mmap) + set f <- FramesBelow(MAX_FRAMES) |
      f < LOW_MEMORY_FRAMES || kernelStart / FRAME_SIZE <= f <= (kernelEnd + FRAME_SIZE - 1) / FRAME_SIZE
  }

  lemma ReservedFrames(mmap: seq<MmapEntry>, kernelStart: nat, kernelEnd: nat)
    ensures 0 in ReservedAtBoot(mmap, kernelStart, kernelEnd)
    ensures ReservedAtBoot(mmap, kernelStart, kernelEnd) <= FramesBelow(MAX_FRAMES)
  {
  }

  /** A frame can be handed out after boot exactly if an entry of the memory map offers it as available memory, and it is neither
      below one megabyte nor under the kernel's image. */
  lemma BootFree(mmap: seq<MmapEntry>, kernelStart: nat, kernelEnd: nat, f: nat)
    ensures f in FramesBelow(MAX_FRAMES) - ReservedAtBoot(mmap, kernelStart, kernelEnd) <==>
      && 256 <= f < 32768 && !(kernelStart / 4096 <= f <= (kernelEnd + 4095) / 4096)
      && exists e <- mmap :: e.available && FirstOffered(e) <= f < (FirstOffered(e) + e.len / 4096 % 0x1_0000_0000) % 0x1_0000_0000
  {
    if f < MAX_FRAMES { assert Below(f, MAX_FRAMES); }
    forall e <- mmap
      ensures e.Offers(f) <==> e.available && FirstOffered(e) <= f < (FirstOffered(e) + e.len / 4096 % 0x1_0000_0000) % 0x1_0000_0000
    {
    }
  }

  function FirstOffered(e: MmapEntry): nat { e.addr / 4096 % 0x1_0000_0000 }

  /** So no byte of a frame that can be handed out is the kernel's or low memory, and where the entries of the map start at page
      boundaries every byte is available memory. */
  lemma BootFreeBytes(mmap: seq<MmapEntry>, kernelStart: nat, kernelEnd: nat, f: nat, byte: nat) returns (e: MmapEntry)
    requires f in FramesBelow(MAX_FRAMES) - ReservedAtBoot(mmap, kernelStart, kernelEnd) && f * 4096 <= byte < f * 4096 + 4096
    ensures byte >= 0x10_0000 && !(kernelStart <= byte < kernelEnd) && e in mmap && e.available
    ensures e.addr % 4096 == 0 && e.addr + e.len < 0x1000_0000_0000 ==> e.addr <= byte < e.addr + e.len
  {
    BootFree(mmap, kernelStart, kernelEnd, f);
    e :| e in mmap && e.available && FirstOffered(e) <= f < (FirstOffered(e) + e.len / 4096 % 0x1_0000_0000) % 0x1_0000_0000;
    if kernelStart <= byte < kernelEnd { UnderKernel(kernelStart, kernelEnd, f, byte); }
    if e.addr % 4096 == 0 && e.addr + e.len < 0x1000_0000_0000 { InsideEntry(e.addr, e.len, f, byte); }
  }

  lemma UnderKernel(lo: nat, hi: nat, f: nat, byte: nat)
    requires f * 4096 <= byte < f * 4096 + 4096 && lo <= byte < hi
    ensures lo / 4096 <= f <= (hi + 4095) / 4096
  {
  }

  lemma InsideEntry(addr: nat, len: nat, f: nat, byte: nat)
    requires addr % 4096 == 0 && addr + len < 0x1000_0000_0000 && f * 4096 <= byte < f * 4096 + 4096
    requires addr / 4096 % 0x1_0000_0000 <= f < (addr / 4096 % 0x1_0000_0000 + len / 4096 % 0x1_0000_0000) % 0x1_0000_0000
    ensures addr <= byte < addr + len
  {
  }

  class FrameAllocator {
    const frameBitmap: array<bv8>
    const frameRefcount: array<Byte>
    var usedFrames: int
    ghost const reserved: set<nat>  // never handed out
    ghost var used: set<nat>        // the frames marked in the bitmap

    ghost predicate BitmapValid()
      reads this, frameBitmap
    {
      Marks(frameBitmap[..], used) && usedFrames == |used|
    }

    /** A frame's bit is set exactly when it is reserved or referenced, and usedFrames counts the
        set bits. */
    ghost predicate Valid()
      reads this, frameBitmap, frameRefcount
    {
      && BitmapValid()
      && frameRefcount.Length == MAX_FRAMES
      && 0 in reserved && reserved <= FramesBelow(MAX_FRAMES)
      && Uncounted(Counts(), reserved)
      && used == FramesBelow(MAX_FRAMES) - Free()
    }

    ghost function Counts(): Counts
      reads this, frameRefcount
      requires frameRefcount.Length == MAX_FRAMES
    {
      frameRefcount[..]
    }

    ghost function Free(): set<nat>
      reads this, frameRefcount
      requires frameRefcount.Length == MAX_FRAMES
    {
      FreeFrames(Counts(), reserved)
    }

    constructor (mmap: seq<MmapEntry>, kernelStart: nat, kernelEnd: nat)
      ensures Valid() && fresh(frameBitmap) && fresh(frameRefcount)
      ensures reserved == ReservedAtBoot(mmap, kernelStart, kernelEnd)
      ensures Free() == FramesBelow(MAX_FRAMES) - reserved
    {
      frameBitmap := new bv8[MAX_FRAMES / 8](_ => 0xFF);
      frameRefcount := new Byte[MAX_FRAMES](_ => 0);
      usedFrames := MAX_FRAMES;
      reserved := ReservedAtBoot(mmap, kernelStart, kernelEnd);
      used := FramesBelow(MAX_FRAMES);
      new;
      hide Marks, Withheld, ReservedAtBoot;
      AllOnes(frameBitmap[..]);
      CountFramesBelow(MAX_FRAMES);
      ReadMemoryMap(mmap, kernelStart, kernelEnd);
      ReservedFrames(mmap, kernelStart, kernelEnd);
      FreeAtBoot(frameRefcount[..], reserved);
    }

    method ReadMemoryMap(mmap: seq<MmapEntry>, kernelStart: nat, kernelEnd: nat)
      requires BitmapValid() && used == FramesBelow(MAX_FRAMES)
      modifies this`usedFrames, this`used, frameBitmap
      ensures BitmapValid() && used == ReservedAtBoot(mmap, kernelStart, kernelEnd)
    {
      hide Marks, Withheld;
      OfferAvailable(mmap);
      ReserveRange(0, LOW_MEMORY_FRAMES - 1);
      ReserveRange(kernelStart / FRAME_SIZE, (kernelEnd + FRAME_SIZE - 1) / FRAME_SIZE);
    }

    method OfferAvailable(mmap: seq<MmapEntry>)
      requires BitmapValid() && used == FramesBelow(MAX_FRAMES)
      modifies this`usedFrames, this`used, frameBitmap
      ensures BitmapValid() && used == Withheld(mmap)
    {
      for i := 0 to |mmap|
        invariant BitmapValid() && used == Withheld(mmap[..i])
      {
        WithheldStep(mmap, i);
        if mmap[i].available {
          OfferRange(mmap[i].StartFrame(), mmap[i].EndFrame());
        }
      }
      assert mmap[..|mmap|] == mmap;
    }

    method OfferRange(first: nat, end: nat)
      requires BitmapValid()
      modifies this`usedFrames, this`used, frameBitmap
      ensures BitmapValid()
      ensures used == old(used) - set g <- FramesBelow(MAX_FRAMES) | first <= g < end
    {
      var f := first;
      while f < end && f < MAX_FRAMES
        invariant first <= f
        invariant BitmapValid()
        invariant used == old(used) - set g <- FramesBelow(MAX_FRAMES) | first <= g < f && g < end
      {
        MarkFree(f);
        f := f + 1;
      }
    }

    method ReserveRange(first: nat, last: nat)
      requires BitmapValid()
      modifies this`usedFrames, this`used, frameBitmap
      ensures BitmapValid()
      ensures used == old(used) + set g <- FramesBelow(MAX_FRAMES) | first <= g <= last
    {
      var f := first;
      while f <= last
        invariant first <= f
        invariant BitmapValid()
        invariant used == old(used) + set g <- FramesBelow(MAX_FRAMES) | first <= g < f && g <= last
      {
        MarkUsed(f);
        f := f + 1;
      }
    }

    method BitmapSet(frame: nat)
      requires frameBitmap.Length == MAX_FRAMES / 8 && Marks(frameBitmap[..], used) && frame < MAX_FRAMES
      modifies this`used, frameBitmap
      ensures used == old(used) + {frame} && Marks(frameBitmap[..], used)
    {
      ghost var before := frameBitmap[..];
      MaskIsShift(frame % 8);
      frameBitmap[frame / 8] := frameBitmap[frame / 8] | (1 << (frame % 8));
      used := used + {frame};
      forall f: nat | f < MAX_FRAMES
        ensures Bit(frameBitmap[..], f) <==> f in used
      {
        SetAt(before, frameBitmap[..], frame, f);
      }
    }

    method BitmapClear(frame: nat)
      requires frameBitmap.Length == MAX_FRAMES / 8 && Marks(frameBitmap[..], used) && frame < MAX_FRAMES
      modifies this`used, frameBitmap
      ensures used == old(used) - {frame} && Marks(frameBitmap[..], used)
    {
      ghost var before := frameBitmap[..];
      MaskIsShift(frame % 8);
      frameBitmap[frame / 8] := frameBitmap[frame / 8] & !(1 << (frame % 8));
      used := used - {frame};
      forall f: nat | f < MAX_FRAMES
        ensures Bit(frameBitmap[..], f) <==> f in used
      {
        ClearAt(before, frameBitmap[..], frame, f);
      }
    }

    method BitmapTest(frame: nat) returns (b: bool)
      requires Marks(frameBitmap[..], used) && frame < MAX_FRAMES
      ensures b <==> frame in used
    {
      MaskIsShift(frame % 8);
      b := frameBitmap[frame / 8] & (1 << (frame % 8)) != 0;
      assert b == Bit(frameBitmap[..], frame);
    }

    method MarkUsed(frame: nat)
      requires BitmapValid()
      modifies this`usedFrames, this`used, frameBitmap
      ensures BitmapValid() && used == old(used) + (if frame < MAX_FRAMES then {frame} else {})
    {
      if frame >= MAX_FRAMES { return; }
      var b := BitmapTest(frame);
      if !b {
        BitmapSet(frame);
        usedFrames := usedFrames + 1;
      }
    }

    method MarkFree(frame: nat)
      requires BitmapValid()
      modifies this`usedFrames, this`used, frameBitmap
      ensures BitmapValid() && used == old(used) - {frame}
    {
      if frame >= MAX_FRAMES { return; }
      var b := BitmapTest(frame);
      if b {
        BitmapClear(frame);
        usedFrames := usedFrames - 1;
      }
    }

    /** Returns the lowest free frame, now referenced once, or 0 when none is left. */
    method AllocFrame() returns (frame: nat)
      requires Valid()
      modifies this`usedFrames, this`used, frameBitmap, frameRefcount
      ensures Valid()
      ensures frame == 0 ==> old(Free()) == {} && Counts() == old(Counts())
      ensures frame != 0 ==> frame in old(Free()) && forall g <- old(Free()) :: frame <= g
      ensures frame != 0 ==> Counts() == old(Counts())[frame := 1] && Free() == old(Free()) - {frame}
    {
      hide Marks;
      for i := 0 to MAX_FRAMES
        invariant frameBitmap[..] == old(frameBitmap[..]) && frameRefcount[..] == old(frameRefcount[..])
        invariant used == old(used) && usedFrames == old(usedFrames)
        invariant FramesBelow(i) <= used
      {
        var b := BitmapTest(i);
        if !b {
          TakeFrame(i);
          return i;
        }
      }
      return 0;
    }

    /** The lowest unmarked frame is marked and referenced. */
    method TakeFrame(i: nat)
      requires Valid() && i < MAX_FRAMES && i !in used && FramesBelow(i) <= used
      modifies this`usedFrames, this`used, frameBitmap, frameRefcount
      ensures Valid() && i in old(Free()) && i != 0 && forall g <- old(Free()) :: i <= g
      ensures Counts() == old(Counts())[i := 1] && Free() == old(Free()) - {i}
    {
      assert frameBitmap.Length == MAX_FRAMES / 8;
      hide Marks;
      LowestFree(Counts(), reserved, used, i);
      FreeAfterUpdate(Counts(), reserved, i, 1);
      BitmapSet(i);
      usedFrames := usedFrames + 1;
      frameRefcount[i] := 1;
      hide FreeFrames;
      assert Counts() == old(Counts())[i := 1];
    }

    /** One of a frame's references less, and the last one returns the frame. */
    method DropReference(frame: nat)
      requires Valid() && frame < MAX_FRAMES && Counts()[frame] > 0
      modifies this`usedFrames, this`used, frameBitmap, frameRefcount
      ensures Valid() && Counts() == old(Counts())[frame := old(Counts())[frame] - 1]
    {
      DropFrees(Counts(), reserved, frame);
      hide FreeFrames, Marks, FramesBelow, Uncounted;
      frameRefcount[frame] := frameRefcount[frame] - 1;
      assert Counts() == Drop(old(Counts()), frame);
      if frameRefcount[frame] == 0 { MarkFree(frame); }
    }

    /** Drops one reference of a frame that has any. */
    method FreeFrame(frame: nat)
      requires Valid()
      modifies this`usedFrames, this`used, frameBitmap, frameRefcount
      ensures Valid()
      ensures Counts() == Drop(old(Counts()), frame)
      ensures var count := if frame < MAX_FRAMES then old(Counts())[frame] else 0;
        && (count == 0 ==> Counts() == old(Counts()) && Free() == old(Free()))
        && (count > 0 ==> Counts() == old(Counts())[frame := count - 1])
        && (count > 0 ==> Free() == if count == 1 then old(Free()) + {frame} else old(Free()))
    {
      DropFrees(Counts(), reserved, frame);
      hide FreeFrames, Marks, FramesBelow, Uncounted;
      if frame < MAX_FRAMES && frameRefcount[frame] > 0 { DropReference(frame); }
    }

    /** The count is one byte wide and wraps, so an allocated frame stays accounted for exactly when
        its count is below 255. */
    method FrameAddref(frame: nat)
      requires Valid()
      requires frame < MAX_FRAMES ==> Counts()[frame] > 0
      modifies frameRefcount
      ensures frame < MAX_FRAMES ==> Counts() == old(Counts())[frame := (old(Counts())[frame] as int + 1) % 256]
      ensures frame >= MAX_FRAMES ==> Counts() == old(Counts())
      ensures Valid() <==> (frame < MAX_FRAMES ==> old(Counts())[frame] != 255)
      ensures Valid() ==> Free() == old(Free())
    {
      if frame < MAX_FRAMES {
        frameRefcount[frame] := (frameRefcount[frame] as int + 1) % 256;
        if old(Counts())[frame] == 255 {
          assert frame in Free();
        } else {
          assert Free() == old(Free());
        }
      }
    }

    method FrameRefcount(frame: nat) returns (count: Byte)
      requires Valid()
      ensures count == if frame < MAX_FRAMES then Counts()[frame] else 0
    {
      if frame >= MAX_FRAMES { return 0; }
      return frameRefcount[frame];
    }

    method FreeFrameCount() returns (n: int)
      requires Valid()
      ensures n == |Free()|
    {
      n := MAX_FRAMES - usedFrames;
      CountFramesBelow(MAX_FRAMES);
      assert FramesBelow(MAX_FRAMES) == used + Free();
    }
  }

  lemma AllOnes(bitmap: seq<bv8>)
    requires |bitmap| == MAX_FRAMES / 8 && forall b <- bitmap :: b == 0xFF
    ensures Marks(bitmap, FramesBelow(MAX_FRAMES))
  {
    forall f: nat | f < MAX_FRAMES
      ensures Bit(bitmap, f)
    {
      assert bitmap[f / 8] in bitmap;
    }
  }
}
