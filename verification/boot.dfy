/** From the bootloader's memory map to running processes, as kernel/kernel.c brings the parts up. */
module Boot {
  import opened Pmm
  import opened PageTables
  import opened Paging
  import opened Accounting
  import opened Processes
  import Kernel
  import Tasks

  /** What the memory map and the kernel's image must leave alone: memory above the identity map, and the sixteen tables
      that lie in the image from frame `tables` on. */
  ghost predicate Bootable(mmap: seq<MmapEntry>, kernelStart: nat, kernelEnd: nat, tables: nat) {
    && tables + IDENTITY_TABLES <= IDENTITY_FRAMES
    && (forall f: nat :: IDENTITY_FRAMES <= f < MAX_FRAMES ==> f in ReservedAtBoot(mmap, kernelStart, kernelEnd))
    && (forall f: nat :: tables <= f < tables + IDENTITY_TABLES ==> f in ReservedAtBoot(mmap, kernelStart, kernelEnd))
  }

  /** The frame allocator, paging and the process table set up one after the other, and then any operations: at first there
      is no process and every frame that is not reserved is free, and from there the run is one of the eager semantics. */
  method BootAndRun(mmap: seq<MmapEntry>, kernelStart: nat, kernelEnd: nat, ram: array<Frame>, tables: nat, ops: seq<Op>)
      returns (evs: seq<Event>, lost: bool, ghost trail: seq<Moment>)
    requires ram.Length == MAX_FRAMES && Bootable(mmap, kernelStart, kernelEnd, tables) && forall op <- ops :: ValidOp(op)
    requires forall op <- ops :: op.HeapOp? ==> op.heapEnd / FRAME_SIZE in ReservedAtBoot(mmap, kernelStart, kernelEnd)
    modifies ram
    ensures |evs| <= |ops| && |trail| == |evs| + 1 && Trail(trail, ops[..|evs|], evs)
    ensures trail[0].View() == Eager(map[], 1) && Ownerless(trail[0]) == {}
    ensures FreeOf(trail[0].x) == FramesBelow(MAX_FRAMES) - ReservedAtBoot(mmap, kernelStart, kernelEnd)
    ensures AllAllowed(Eager(map[], 1), ops[..|evs|], evs)
    ensures trail[|evs|].View() == After(Eager(map[], 1), ops[..|evs|], evs)
    ensures forall a <- trail :: AtRest(a) && CountsExact(a.x.counts, a.x.m)
    ensures !lost && |evs| < |ops| ==> |evs| > 0 && evs[|evs| - 1].Halted?
    ensures lost ==> |evs| < |ops| && Unfollowed(trail[|evs|].x, trail[|evs|].dirs, ops[|evs|])
  {
    hide AtRest, Sound, Tidy, CountsExact, AllAllowed, After, Trail, Unfollowed, ReservedAtBoot, IdentityMap, Ownerless, ViewOf;
    var pmm := new FrameAllocator(mmap, kernelStart, kernelEnd);
    var mem := new AddressSpaces(pmm, ram, tables);
    var processes := new ProcessTable(mem, 1);
    evs, lost, trail := processes.Run(ops);
  }

  /** The same, with the task ring: the shell runs as task 0 and no program is there; and then any calls that can be made when
      their turns come, each one of the transition relation, with tasks and memory belonging together throughout. */
  method BootAndCall(mmap: seq<MmapEntry>, kernelStart: nat, kernelEnd: nat, ram: array<Frame>, tables: nat, calls: seq<Kernel.Call>)
      returns (ok: bool, evs: seq<seq<Event>>, ghost trail: seq<Kernel.State>)
    requires ram.Length == MAX_FRAMES && Bootable(mmap, kernelStart, kernelEnd, tables)
    requires forall a: Moment :: Kernel.Playable(Kernel.State(Tasks.Booted(), a), calls)
    requires forall call <- calls :: call.Grow? ==> call.heapEnd / FRAME_SIZE in ReservedAtBoot(mmap, kernelStart, kernelEnd)
    modifies ram
    ensures |evs| <= |calls| && Kernel.Runs(trail, calls[..|evs|], evs) && forall k <- trail :: Kernel.Matched(k)
    ensures trail[0].tasks == Tasks.Booted() && Ownerless(trail[0].memory) == {}
    ensures FreeOf(trail[0].memory.x) == FramesBelow(MAX_FRAMES) - ReservedAtBoot(mmap, kernelStart, kernelEnd)
    ensures ok && |evs| < |calls| ==> |evs| > 0 && Kernel.Halts(evs[|evs| - 1])
    ensures !ok ==> |evs| < |calls| && Kernel.Untold(trail[|evs|], calls[|evs|])
  {
    hide AtRest, Sound, Tidy, ReservedAtBoot, IdentityMap, Ownerless, ViewOf, Kernel.Matched, Kernel.Playable, Kernel.Runs, Kernel.Untold;
    var pmm := new FrameAllocator(mmap, kernelStart, kernelEnd);
    var mem := new AddressSpaces(pmm, ram, tables);
    var processes := new ProcessTable(mem, 1);
    var machine := new Kernel.Machine(processes);
    hide ProcessTable.Valid, ProcessTable.Now, Kernel.Machine.Valid;
    ok, evs, trail := machine.Run(calls);
  }
}
