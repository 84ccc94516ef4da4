/** What the eager semantics of Processes says of single bytes: what is loaded is what was last stored, and a program that has been
    started has the bytes that its executable was made of. */
module EagerFacts {
  import opened Options
  import opened Pmm
  import opened PageTables
  import opened Paging
  import opened UserAccess
  import opened Elf
  import opened ElfBounds
  import opened ElfFormat
  import opened Accounting
  import opened Processes

  /** The byte a process has at an address, if it has one there. */
  function ByteIn(e: Eager, p: nat, at: nat): Option<bv8> {
    if p in e.spaces && PageOf(at) in e.spaces[p] && OffsetOf(at) < |e.spaces[p][PageOf(at)]|
    then Some(e.spaces[p][PageOf(at)][OffsetOf(at)]) else None
  }

  /** An operation that can change the byte: a store of the process at the address, one by the kernel that reaches the process
      there, and an exec or the reaping of the process. */
  predicate Changes(op: Op, ev: Event, p: nat, at: nat) {
    match op
    case StoreOp(q, virt, _) => q == p && virt == at
    case PokeOp(_, virt, _) => virt == at && ev.Poked? && p in ev.sharers
    case ExecOp(q, _) => q == p
    case ReapOp(q) => q == p
    case _ => false
  }

  ghost predicate Older(e: Eager) { forall q <- e.spaces :: q < e.next }

  lemma OtherAddress(a: nat, b: nat)
    requires a != b && a < 0x1_0000_0000 && b < 0x1_0000_0000
    ensures PageOf(a) != PageOf(b) || OffsetOf(a) != OffsetOf(b)
  {
    AddressSplits(a);
    AddressSplits(b);
  }

  lemma PokedByte(space: Space, virt: nat, b: bv8, at: nat)
    requires virt < 0x1_0000_0000 && at < 0x1_0000_0000
    ensures var space' := PokeSpace(space, virt, b);
      && (PageOf(at) in space' <==> PageOf(at) in space)
      && (PageOf(at) in space && OffsetOf(at) < |space[PageOf(at)]| ==>
            && |space'[PageOf(at)]| == |space[PageOf(at)]|
            && space'[PageOf(at)][OffsetOf(at)] == if at == virt then b else space[PageOf(at)][OffsetOf(at)])
      && (PageOf(at) in space && OffsetOf(at) >= |space[PageOf(at)]| ==> |space'[PageOf(at)]| == |space[PageOf(at)]|)
  {
    if at != virt { OtherAddress(at, virt); }
    hide PageOf, OffsetOf;
  }

  /** Whatever does not change a byte leaves it as it is. */
  lemma ByteStays(e: Eager, op: Op, ev: Event, p: nat, at: nat)
    requires Older(e) && Allowed(e, op, ev) && ValidOp(op) && p in e.spaces && at < 0x1_0000_0000 && !Changes(op, ev, p, at)
    ensures var e' := Next(e, op, ev); Older(e') && p in e'.spaces && ByteIn(e', p, at) == ByteIn(e, p, at)
  {
    hide PageOf, OffsetOf, PokeSpace, ProgramSpace, IsElf32, EntryPoint;
    match op
    case StoreOp(q, virt, b) => if p == q { PokedByte(e.spaces[p], virt, b, at); }
    case PokeOp(_, virt, b) => PokedByte(e.spaces[p], virt, b, at);
    case _ =>
  }

  /** A store that goes through puts its byte there, and so does one by the kernel, for everyone it reaches. */
  lemma BytePut(e: Eager, p: nat, virt: nat, b: bv8, q: nat, op: Op, ev: Event)
    requires Older(e) && virt < 0x1_0000_0000 && ByteIn(e, q, virt).Some?
    requires (op == StoreOp(p, virt, b) && ev == Stored && q == p) || (op == PokeOp(p, virt, b) && ev.Poked? && q in ev.sharers)
    ensures var e' := Next(e, op, ev); Older(e') && q in e'.spaces && ByteIn(e', q, virt) == Some(b)
  {
    hide PageOf, OffsetOf, PokeSpace;
    PokedByte(e.spaces[q], virt, b, virt);
  }

  lemma {:induction false} StaysThrough(e: Eager, ops: seq<Op>, evs: seq<Event>, p: nat, at: nat, lo: nat, hi: nat)
    requires |ops| == |evs| && lo <= hi <= |ops| && AllAllowed(e, ops, evs) && (forall op <- ops :: ValidOp(op)) && at < 0x1_0000_0000
    requires var m := After(e, ops[..lo], evs[..lo]); Older(m) && p in m.spaces
    requires forall k :: lo <= k < hi ==> !Changes(ops[k], evs[k], p, at)
    ensures var m, n := After(e, ops[..lo], evs[..lo]), After(e, ops[..hi], evs[..hi]);
      Older(n) && p in n.spaces && ByteIn(n, p, at) == ByteIn(m, p, at)
    decreases hi
  {
    hide Next, Allowed, Changes, ByteIn, Older, ValidOp;
    if lo < hi {
      StaysThrough(e, ops, evs, p, at, lo, hi - 1);
      AfterOneMore(e, ops, evs, hi - 1);
      ByteStays(After(e, ops[..hi - 1], evs[..hi - 1]), ops[hi - 1], evs[hi - 1], p, at);
    }
  }

  lemma AfterOneMore(e: Eager, ops: seq<Op>, evs: seq<Event>, k: nat)
    requires |ops| == |evs| && k < |ops|
    ensures After(e, ops[..k + 1], evs[..k + 1]) == Next(After(e, ops[..k], evs[..k]), ops[k], evs[k])
  {
    hide Next;
    assert ops[..k + 1][..k] == ops[..k] && evs[..k + 1][..k] == evs[..k];
  }

  lemma {:induction false} StaysOlder(e: Eager, ops: seq<Op>, evs: seq<Event>)
    requires |ops| == |evs| && Older(e) && AllAllowed(e, ops, evs)
    ensures Older(After(e, ops, evs))
    decreases |ops|
  {
    hide Allowed, Next;
    if ops != [] {
      var n := |ops| - 1;
      assert forall i :: 0 <= i < n ==> ops[..n][..i] == ops[..i] && evs[..n][..i] == evs[..i];
      StaysOlder(e, ops[..n], evs[..n]);
      StepOlder(After(e, ops[..n], evs[..n]), ops[n], evs[n]);
    }
  }

  lemma StepOlder(e: Eager, op: Op, ev: Event)
    requires Older(e) && Allowed(e, op, ev)
    ensures Older(Next(e, op, ev))
  {
    hide PageOf, OffsetOf, PokeSpace, ProgramSpace, IsElf32, EntryPoint;
  }

  /** Over every run: what a process loads at an address is what it last stored there, as long as it is the same program. */
  lemma LoadsLastStore(e: Eager, ops: seq<Op>, evs: seq<Event>, i: nat, j: nat, p: nat, virt: nat, b: bv8)
    requires |ops| == |evs| && Older(e) && AllAllowed(e, ops, evs) && (forall op <- ops :: ValidOp(op))
    requires i < j < |ops| && ops[i] == StoreOp(p, virt, b) && evs[i] == Stored && ops[j] == LoadOp(p, virt)
    requires ByteIn(After(e, ops[..i], evs[..i]), p, virt).Some?
    requires forall k :: i < k < j ==> !Changes(ops[k], evs[k], p, virt)
    ensures evs[j] == Byte(b)
  {
    hide Next, Allowed, Changes, ByteIn, Older, After;
    assert ops[i] in ops && ValidOp(ops[i]);
    assert forall k :: 0 <= k < i ==> ops[..i][..k] == ops[..k] && evs[..i][..k] == evs[..k];
    StaysOlder(e, ops[..i], evs[..i]);
    BytePut(After(e, ops[..i], evs[..i]), p, virt, b, p, ops[i], evs[i]);
    AfterOneMore(e, ops, evs, i);
    StaysThrough(e, ops, evs, p, virt, i + 1, j);
    LoadShows(After(e, ops[..j], evs[..j]), p, virt, evs[j]);
  }

  /** A load shows the byte that is there. */
  lemma LoadShows(e: Eager, p: nat, virt: nat, ev: Event)
    requires Allowed(e, LoadOp(p, virt), ev) && ByteIn(e, p, virt).Some?
    ensures ev == Byte(ByteIn(e, p, virt).value)
  {
    hide PageOf, OffsetOf;
  }

  // ---------------------------------------------------------------- a program that is started

  /** The byte that a program has at an address of one of its parts. */
  ghost predicate HasPart(space: Space, part: Part, at: nat) {
    && PageOf(at) in space && |space[PageOf(at)]| == 4096
    && space[PageOf(at)][OffsetOf(at)] == if part.vaddr <= at < part.vaddr + |part.bytes| then part.bytes[at - part.vaddr] else 0
  }

  /** An executable that is started starts where its program says, with the program's bytes in memory and its stack page at
      0x40100000; and where the frames suffice it is started. */
  lemma ProgramStarted(a: Moment, op: Op, ev: Event, b: Moment, p: Program, i: nat, at: nat)
    requires Fitting(p) && WellLaid(p) && i < |p.parts| && p.parts[i].load
    requires p.parts[i].vaddr <= at < p.parts[i].vaddr + p.parts[i].memsz
    requires (op.SpawnOp? || (op.ExecOp? && op.pid in a.dirs)) && op.elf == File(p) && Stepped(a, op, ev, b)
    ensures ev.Started? <==> |FreeOf(a.x)| >= FramesToBuild(File(p))
    ensures ev.Started? ==> ev.entry == p.entry && ev.pid in b.View().spaces
    ensures ev.Started? ==>
      var space := b.View().spaces[ev.pid];
      && PageOf(0x4010_0000) in space && space[PageOf(0x4010_0000)] == ev.stack
      && (PageOf(at) != PageOf(0x4010_0000) ==> HasPart(space, p.parts[i], at))
  {
    hide Leftovers, Inherited, LeakFreeOp, HeapHeld, StackLeft, PageOf, OffsetOf, LoadSpace, SpaceOf, PagesToLoad, Sharers, FramesStay, Fitting;
    hide WellLaid, File, FramesToBuild, FreeOf, ImageWith, SegmentCount, IsElf32, EntryPoint, Contained;
    ReadBack(p, i);
    FileContained(p);
    ProgramLoads(p, map[], 0, i, at);
    NothingThere();
    SpaceAfterLoad(map[], 0, PagesToLoad(File(p), SegmentCount(File(p))), 0);
    InSpace(ImageWith(map[], 0, PagesToLoad(File(p), SegmentCount(File(p)))), 0, PageOf(at));
    LoadedSlot(ImageWith(map[], 0, PagesToLoad(File(p), SegmentCount(File(p)))), at);
  }

  lemma NothingThere()
    ensures SpaceOf(map[], 0) == map[]
  {
  }

  lemma LoadedSlot(image: Image, at: nat)
    requires SlotOf(0, at) in image
    ensures PageOf(at) in SpaceOf(image, 0) && SpaceOf(image, 0)[PageOf(at)] == image[SlotOf(0, at)]
  {
    hide PageOf;
    InSpace(image, 0, PageOf(at));
  }
}
