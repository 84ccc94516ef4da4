/** A program that forks two children, one of which exits while the other only reads, and then waits for an exit code at an
    address all three have: the other child sees the code. */
module StatusWitness {
  import opened Options
  import Tasks
  import opened Kernel
  import opened Pmm
  import opened PageTables
  import opened Paging
  import Sharing = Fork
  import opened Elf
  import opened ElfBounds
  import opened Accounting
  import opened Processes
  import opened Witnesses
  import UserAccess
  import Conservation

  // ---------------------------------------------------------------- the task list along the way

  function T(id: nat): Tasks.Task { Tasks.Task(id, Tasks.Ready, if id == 0 then None else Some(if id == 1 then 0 else 1), 0, Tasks.No) }
  function Gone(): Tasks.Task { T(2).(state := Tasks.Zombie, exitCode := 1) }

  function Started1(): Tasks.System { Tasks.Next(Tasks.Booted(), Tasks.Create) }
  function Running1(): Tasks.System { Tasks.Next(Started1(), Tasks.Yield) }
  function Forked2(): Tasks.System { Tasks.Next(Running1(), Tasks.Create) }
  function Running2(): Tasks.System { Tasks.Next(Forked2(), Tasks.Yield) }
  function Exited2(): Tasks.System { Tasks.Next(Running2(), Tasks.Exit(1)) }
  function Again1(): Tasks.System { Tasks.Next(Exited2(), Tasks.Yield) }
  function Forked3(): Tasks.System { Tasks.Next(Again1(), Tasks.Create) }
  function Running3(): Tasks.System { Tasks.Next(Forked3(), Tasks.Yield) }
  function Shell(): Tasks.System { Tasks.Next(Running3(), Tasks.Yield) }
  function Waiting1(): Tasks.System { Tasks.Next(Shell(), Tasks.Yield) }
  function Reaped2(): Tasks.System { Tasks.Next(Waiting1(), Tasks.WaitAny) }
  function Later3(): Tasks.System { Tasks.Next(Reaped2(), Tasks.Yield) }

  lemma Rings1()
    ensures Started1().ring == [T(0), T(1)] && Started1().nextId == 2 && Started1().reaped == []
    ensures Running1().ring == [T(1), T(0)] && Running1().nextId == 2 && Running1().reaped == []
    ensures Forked2().ring == [T(1), T(2), T(0)] && Forked2().nextId == 3 && Forked2().reaped == []
    ensures Running2().ring == [T(2), T(0), T(1)] && Running2().nextId == 3 && Running2().reaped == []
  {
    assert Tasks.NextReady(Started1().ring, 1) == 1;
    assert Tasks.NextReady(Forked2().ring, 1) == 1;
  }

  lemma Rings2()
    ensures Exited2().ring == [T(0), T(1), Gone()] && Exited2().nextId == 3 && Exited2().reaped == []
    ensures Again1().ring == [T(1), Gone(), T(0)] && Again1().nextId == 3 && Again1().reaped == []
    ensures Forked3().ring == [T(1), T(3), Gone(), T(0)] && Forked3().nextId == 4 && Forked3().reaped == []
    ensures Running3().ring == [T(3), Gone(), T(0), T(1)] && Running3().nextId == 4 && Running3().reaped == []
  {
    Rings1();
    hide Running2;
    var s := Running2();
    var r := [Gone(), T(0), T(1)];
    assert s.ring[0 := Gone()] == r;
    assert Tasks.Find(r, 1, 0) == 2 by { assert Tasks.Find(r, 1, 1) == 2; }
    assert r[2 := Tasks.Woken(T(1))] == r;
    assert Tasks.Ended(s, 0, 1).ring == r;
    assert Tasks.NextReady(r, 1) == 1;
    assert Tasks.NextReady([T(0), T(1), Gone()], 1) == 1;
    assert Tasks.NextReady([T(1), T(3), Gone(), T(0)], 1) == 1;
  }

  lemma Rings3()
    ensures Shell().ring == [T(0), T(1), T(3), Gone()] && Shell().reaped == []
    ensures Waiting1().ring == [T(1), T(3), Gone(), T(0)] && Waiting1().reaped == []
  {
    Rings2();
    hide Running3;
    assert Tasks.NextReady([T(3), Gone(), T(0), T(1)], 1) == 2 by { assert Tasks.NextReady([T(3), Gone(), T(0), T(1)], 2) == 2; }
    assert Tasks.NextReady([T(0), T(1), T(3), Gone()], 1) == 1;
  }

  lemma ZombieFound()
    ensures var r := [T(1), T(3), Gone(), T(0)]; Tasks.ZombieChild(r, 1, 1) == 2 && Tasks.Childless(r, 2)
  {
    var r := [T(1), T(3), Gone(), T(0)];
    assert Tasks.ZombieChild(r, 1, 2) == 2;
  }

  lemma CanWait()
    ensures Tasks.Allowed(Waiting1(), Tasks.WaitAny)
  {
    Rings3();
    ZombieFound();
    hide Waiting1, Tasks.ZombieChild, Tasks.Childless;
  }

  lemma Rings4()
    ensures Reaped2().ring == [T(1), T(3), T(0)] && Reaped2().reaped == [Tasks.Reaping(1, 2, 1)]
    ensures Later3().ring == [T(3), T(0), T(1)] && Later3().reaped == [Tasks.Reaping(1, 2, 1)]
  {
    Rings3();
    ZombieFound();
    hide Waiting1, Tasks.ZombieChild, Tasks.Childless;
    var s, r := Waiting1(), [T(1), T(3), Gone(), T(0)];
    assert r[0 := T(1)] == r && T(1).(waiting := Tasks.No) == T(1);
    assert Reaped2() == Tasks.Reap(s, 2);
    assert Tasks.NextReady([T(1), T(3), T(0)], 1) == 1;
  }

  // ---------------------------------------------------------------- the memory along the way

  const ST := USER_STACK_VADDR
  function StackPage(): VPage { PageOf(ST) }

  /** Some processes, each with a stack page and nothing else, and everything else as at first. */
  ghost predicate Plain(a: Moment, ids: set<nat>, a0: Moment) {
    && AtRest(a) && a.dirs.Keys == ids && Ownerless(a) == {} && a.x.held == a0.x.held && a.x.reserved == a0.x.reserved
    && OnePageEach(a)
  }

  ghost predicate OnePageEach(a: Moment) { forall p <- a.View().spaces :: a.View().spaces[p].Keys == {StackPage()} }

  lemma {:induction false} OnePair<A, B>(ids: set<A>, pairs: set<(A, B)>, b: B)
    requires pairs == set p <- ids :: (p, b)
    ensures |pairs| == |ids|
    decreases |ids|
  {
    if ids == {} {
      assert pairs == {};
    } else {
      var x :| x in ids;
      OnePair(ids - {x}, pairs - {(x, b)}, b);
    }
  }

  lemma {:induction false} FramesAtMost(leaves: map<Slot, Pte>, frames: set<nat>)
    requires frames == set s <- leaves :: leaves[s].frame
    ensures |frames| <= |leaves|
    decreases |leaves|
  {
    if leaves != map[] {
      var s :| s in leaves;
      var less := leaves - {s};
      var fewer := set u <- less :: less[u].frame;
      FramesAtMost(less, fewer);
      assert leaves.Keys == less.Keys + {s};
      assert frames <= fewer + {leaves[s].frame};
      Smaller(frames, fewer + {leaves[s].frame});
    } else {
      assert frames == {};
    }
  }

  lemma AllOwned(a: Moment)
    requires AtRest(a) && Ownerless(a) == {}
    ensures |a.x.m.dirs| == |a.dirs|
  {
    hide Sound, Tidy, OwnerlessPrivate;
    forall d <- a.dirs.Values ensures d in a.x.m.dirs { var p := Conservation.OwnerOf(a, d); }
    Conservation.InjectiveValues(a.dirs);
    forall d <- a.x.m.dirs ensures d in a.dirs.Values { assert d !in Ownerless(a); }
    assert a.x.m.dirs == a.dirs.Values;
  }

  lemma Pairs(spaces: map<nat, Space>, page: VPage)
    requires forall p <- spaces :: spaces[p].Keys == {page}
    ensures |Conservation.AllPages(spaces)| == |spaces.Keys| && |Conservation.AllTables(spaces)| == |spaces.Keys|
  {
    assert forall p <- spaces :: page in spaces[p];
    assert Conservation.AllPages(spaces) == set p <- spaces.Keys :: (p, page);
    assert Conservation.AllTables(spaces) == set p <- spaces.Keys :: (p, page.pd);
    OnePair(spaces.Keys, Conservation.AllPages(spaces), page);
    OnePair(spaces.Keys, Conservation.AllTables(spaces), page.pd);
  }

  lemma Sizes(a: Moment, ids: set<nat>)
    requires a.dirs.Keys == ids && Ownerless(a) == {} && OnePageEach(a)
    ensures |Conservation.AllPages(a.View().spaces)| == |ids| && |Conservation.AllTables(a.View().spaces)| == |ids|
    ensures Conservation.LeftPages(a) == {} && Conservation.LeftTables(a) == {}
  {
    Conservation.ViewKeys(a);
    hide StackPage, ViewOf, Ownerless, Conservation.AllPages, Conservation.AllTables;
    Pairs(a.View().spaces, StackPage());
  }

  /** Few processes leave many frames. */
  lemma Roomy(a: Moment, ids: set<nat>, a0: Moment)
    requires Plain(a, ids, a0)
    ensures |FreeOf(a.x)| + 4 * |ids| + |Conservation.HeldFrames(a0.x.held)| + |a0.x.reserved| >= MAX_FRAMES
    ensures |a.x.m.leaves| == |ids| && |a.x.m.tables| == |ids|
  {
    hide Sound, Tidy, FreeOf, HeldOnly, Conservation.HeldFrames, OwnerlessPrivate, TableValid, ViewOf, MappedFrames, OnePageEach, Ownerless;
    hide Conservation.AllPages, Conservation.AllTables, Conservation.LeftPages, Conservation.LeftTables;
    Conservation.PagesCount(a);
    Conservation.TablesCount(a);
    Conservation.HeldOnlyIs(a.x);
    FramesAddUp(a.x);
    AllOwned(a);
    Sizes(a, ids);
    FewFrames(a.x.m);
    assert |a.dirs| == |a.dirs.Keys|;
  }

  lemma FewFrames(m: Layout)
    ensures |MappedFrames(m)| <= |m.leaves|
  {
    FramesAtMost(m.leaves, MappedFrames(m));
  }

  /** Then a fork can be completed and a store goes through. */
  lemma RoomToFork(a: Moment, ids: set<nat>, a0: Moment, p: nat)
    requires Plain(a, ids, a0) && |ids| <= 3 && p in ids
    requires |Conservation.HeldFrames(a0.x.held)| + |a0.x.reserved| + 16 <= MAX_FRAMES
    ensures ForkRoom(a.x, a.dirs[p]) && FreeOf(a.x) != {}
  {
    hide Sound, Tidy, OwnerlessPrivate, TableValid, Conservation.HeldFrames, OnePageEach, Ownerless, ViewOf, Sharing.TableIndexes, FreeOf;
    Roomy(a, ids, a0);
    FewTables(a.x.m, a.dirs[p]);
    forall s <- a.x.m.leaves | a.x.m.leaves[s].frame < MAX_FRAMES
      ensures a.x.counts[a.x.m.leaves[s].frame] < 255
    {
      FewMappers(a.x, s);
    }
    hide AtRest;
    RoomIs(a.x, a.dirs[p]);
  }

  lemma RoomIs(x: Memory, d: nat)
    requires |FreeOf(x)| >= 4 && |Sharing.TableIndexes(x.m, d)| <= 3
    requires forall s <- x.m.leaves :: x.m.leaves[s].frame < MAX_FRAMES ==> x.counts[x.m.leaves[s].frame] < 255
    ensures ForkRoom(x, d) && FreeOf(x) != {}
  {
    hide Sharing.TableIndexes;
  }

  lemma FewMappers(x: Memory, s: Slot)
    requires Sound(x) && Tidy(x) && s in x.m.leaves && x.m.leaves[s].frame < MAX_FRAMES && |x.m.leaves| <= 3
    ensures x.counts[x.m.leaves[s].frame] <= 3
  {
    hide Sound, Tidy;
    assert x.m.leaves[s].frame in MappedFrames(x.m);
    ExactCounts(x, x.m.leaves[s].frame);
    assert |x.m.leaves| == |x.m.leaves.Keys|;
    Smaller(LeafUses(x.m, x.m.leaves[s].frame), x.m.leaves.Keys);
  }

  lemma FewTables(m: Layout, d: nat)
    ensures |Sharing.TableIndexes(m, d)| <= |m.tables|
  {
    var slots := set i <- Sharing.TableIndexes(m, d) :: TableSlot(d, i);
    SameSize(Sharing.TableIndexes(m, d), slots, d);
    assert slots <= m.tables.Keys;
    Smaller(slots, m.tables.Keys);
  }

  lemma {:induction false} SameSize(indexes: set<nat>, slots: set<TableSlot>, d: nat)
    requires slots == set i <- indexes :: TableSlot(d, i)
    ensures |slots| == |indexes|
    decreases |indexes|
  {
    if indexes == {} {
      assert slots == {};
    } else {
      var i :| i in indexes;
      SameSize(indexes - {i}, slots - {TableSlot(d, i)}, d);
    }
  }

  // ---------------------------------------------------------------- the calls

  ghost predicate Enough(a0: Moment) { |Conservation.HeldFrames(a0.x.held)| + |a0.x.reserved| + 16 <= MAX_FRAMES }

  ghost predicate At(k: State, tasks: Tasks.System, ids: set<nat>, a0: Moment) {
    k.tasks == tasks && Matched(k) && Plain(k.memory, ids, a0) && Enough(a0) && |ids| <= 3
  }

  /** An operation that leaks nothing and leaves nothing behind. */
  lemma PlainStep(a: Moment, op: Op, ev: Event, b: Moment, ids: set<nat>, ids': set<nat>, a0: Moment)
    requires Plain(a, ids, a0) && Stepped(a, op, ev, b) && AtRest(b) && LeakFreeOp(op) && !Abandons(op, ev)
    requires b.dirs.Keys == ids' && OnePageEach(b)
    ensures Plain(b, ids', a0)
  {
    hide AtRest, Allowed, Next, ViewOf, Inherited, KeepsOwnerless, Ownerless, Scarce, OnePageEach, StackLeft, HeapHeld, LeakFreeOp;
  }

  lemma NextPages(e: Eager, op: Op, ev: Event)
    requires (forall p <- e.spaces :: e.spaces[p].Keys == {StackPage()}) && (op.ForkOp? || op.LoadOp? || op.StoreOp?)
    ensures forall p <- Next(e, op, ev).spaces :: Next(e, op, ev).spaces[p].Keys == {StackPage()}
  {
    hide PageOf, OffsetOf;
  }

  /** A call of a program that is one operation on its memory. */
  lemma ActStage(k: State, call: Call, evs: seq<Event>, k': State, ids: set<nat>, a0: Moment)
    requires At(k, k.tasks, ids, a0) && (call.Fork? || call.Load? || call.Store?) && Calls(k, call, evs, k')
    requires Runner(k) in ids && (call.Fork? ==> |ids| <= 2)
    ensures |evs| == 1 && Stepped(k.memory, MemoryOp(Runner(k), call), evs[0], k'.memory)
    ensures k'.tasks == if call.Fork? then Tasks.Next(k.tasks, Tasks.Create) else k.tasks
    ensures call.Fork? ==> evs[0] == Child(k.memory.next)
    ensures At(k', k'.tasks, if call.Fork? then ids + {k.memory.next} else ids, a0)
  {
    hide Matched, AtRest, Leads, Enough, Tasks.Next, Tasks.Allowed, Stepped, LeakFreeOp, Ownerless, ViewOf, OnePageEach;
    ActIs(k, call, evs, k');
    ActMatched(k, call, evs, k');
    var op := MemoryOp(Runner(k), call);
    SteppedAllowed(k.memory, op, evs[0], k'.memory);
    DirsAfter(k.memory, op, evs[0], k'.memory);
    EachAfter(k.memory, op, evs[0], k'.memory);
    LeaksNothing(op);
    hide Allowed, Next;
    PlainStep(k.memory, op, evs[0], k'.memory, ids, if call.Fork? then ids + {k.memory.next} else ids, a0);
  }

  lemma LeaksNothing(op: Op)
    requires op.ForkOp? || op.LoadOp? || op.StoreOp?
    ensures LeakFreeOp(op)
  {
  }

  lemma EachAfter(a: Moment, op: Op, ev: Event, b: Moment)
    requires OnePageEach(a) && Stepped(a, op, ev, b) && (op.ForkOp? || op.LoadOp? || op.StoreOp?)
    ensures OnePageEach(b)
  {
    SteppedAllowed(a, op, ev, b);
    hide Stepped, ViewOf, StackPage;
    NextPages(a.View(), op, ev);
  }

  /** None of these calls is one that cannot be followed. */
  lemma Told(k: State, call: Call, ids: set<nat>, a0: Moment)
    requires At(k, k.tasks, ids, a0) && Runner(k) in ids && (call.Fork? || call.Load? || call.Store?)
    ensures !Untold(k, call)
  {
    hide Matched, AtRest, OnePageEach, Ownerless, ForkRoom, Contained;
    RoomToFork(k.memory, ids, a0, Runner(k));
    if call.Store? { FreeStorable(k.memory, Runner(k), call.virt); }
  }

  lemma FreeStorable(a: Moment, p: nat, virt: nat)
    requires AtRest(a) && p in a.dirs && FreeOf(a.x) != {}
    ensures SlotOf(a.dirs[p], virt) in a.x.m.leaves ==> UserAccess.Storable(a.x, SlotOf(a.dirs[p], virt))
  {
    hide Tidy, OwnerlessPrivate, TableValid;
    var s := SlotOf(a.dirs[p], virt);
    if s in a.x.m.leaves { Sharing.LeafFacts(a.x, s); }
    hide Sound;
  }

  // ---------------------------------------------------------------- the first program

  lemma NoSegmentsFits()
    ensures Contained(NoSegments()) && IsElf32(NoSegments()) && FramesToBuild(NoSegments()) == 3 && Clean(NoSegments())
    ensures PagesToLoad(NoSegments(), SegmentCount(NoSegments())) == []
  {
    NoSegmentsFacts();
    FramesForStack(NoSegments());
    hide NoSegments, IsElf32, SegmentCount, Clean;
    assert TablesOf([]) == {};
    NoSegmentsLength();
  }

  lemma NoSegmentsLength()
    ensures |NoSegments()| == 52
  {
  }

  ghost predicate AtBoot0(k: State) {
    k.tasks == Tasks.Booted() && Matched(k) && Plain(k.memory, {}, k.memory) && Enough(k.memory)
  }

  lemma BootFacts(k: State)
    requires AtBoot0(k)
    ensures |FreeOf(k.memory.x)| >= 3 && k.memory.next == 1 && k.memory.View().spaces == map[] && AtRest(k.memory)
    ensures Runner(k) == 0
  {
    hide AtRest, FreeOf, OnePageEach, Ownerless, Conservation.HeldFrames, ViewOf, Tasks.Sound;
    Roomy(k.memory, {}, k.memory);
    Conservation.ViewKeys(k.memory);
  }

  lemma SpawnTold(k: State)
    requires AtBoot0(k)
    ensures !Untold(k, Run(NoSegments()))
  {
    hide *;
    NoSegmentsFits();
    BootFacts(k);
    RunTold(k, NoSegments());
  }

  lemma RunTold(k: State, elf: seq<bv8>)
    requires Contained(elf) && FramesToBuild(elf) <= |FreeOf(k.memory.x)|
    ensures !Untold(k, Run(elf))
  {
    hide FreeOf, FramesToBuild, Contained;
  }

  lemma SpawnStage(k: State, evs: seq<Event>, k': State)
    requires AtBoot0(k) && Calls(k, Run(NoSegments()), evs, k')
    ensures |evs| == 1 && evs[0].Started? && At(k', Started1(), {1}, k.memory)
  {
    hide Matched, AtRest, Leads, Enough, Tasks.Next, Tasks.Allowed, Stepped, LeakFreeOp, Ownerless, ViewOf, NoSegments, FreeOf, OnePageEach;
    BootFacts(k);
    ActIs(k, Run(NoSegments()), evs, k');
    ActMatched(k, Run(NoSegments()), evs, k');
    var op := SpawnOp(NoSegments());
    assert MemoryOp(Runner(k), Run(NoSegments())) == op;
    SpawnStarts(k.memory, evs[0], k'.memory);
    DirsAfter(k.memory, op, evs[0], k'.memory);
    SpawnLeaks();
    PlainStep(k.memory, op, evs[0], k'.memory, {}, {1}, k.memory);
    assert k'.tasks == Started1();
    hide Plain, Calls, AtBoot0;
  }

  lemma SpawnLeaks()
    ensures LeakFreeOp(SpawnOp(NoSegments()))
  {
    NoSegmentsFits();
  }

  lemma SpawnStarts(a: Moment, ev: Event, b: Moment)
    requires Stepped(a, SpawnOp(NoSegments()), ev, b) && |FreeOf(a.x)| >= 3 && a.View().spaces == map[]
    ensures ev.Started? && OnePageEach(b)
  {
    NoSegmentsFits();
    hide NoSegments, Contained, FreeOf, IsElf32, Clean, FramesToBuild, StackPage, ViewOf, SegmentCount, EntryPoint, PagesToLoad;
    hide Leftovers, Inherited, Overreads, StackLeft, LeakFreeOp;
    assert ev.Started?;
    OneSpace(ev.stack);
  }

  lemma OneSpace(stack: seq<bv8>)
    ensures ProgramSpace(NoSegments(), stack).Keys == {StackPage()}
  {
    NoSegmentsFits();
    hide NoSegments, SegmentCount, PagesToLoad;
  }

  // ---------------------------------------------------------------- bytes

  ghost predicate Shows(a: Moment, p: nat, b: bv8) { HasByte(a, p, ST) && ByteAt(a, p, ST) == b }

  lemma HasStack(k: State, ids: set<nat>, a0: Moment, p: nat)
    requires At(k, k.tasks, ids, a0) && p in ids
    ensures HasByte(k.memory, p, ST) && p in k.memory.View().spaces && k.memory.View().spaces[p].Keys == {StackPage()}
  {
    hide Matched, AtRest, Enough, ViewOf, HasByte;
    Conservation.ViewKeys(k.memory);
    assert StackPage() in k.memory.View().spaces[p];
    HasIt(k.memory, p, ST);
  }

  /** A store to the stack page shows. */
  lemma StoreShows(k: State, b: bv8, evs: seq<Event>, k': State, ids: set<nat>, a0: Moment)
    requires At(k, k.tasks, ids, a0) && Calls(k, Store(ST, b), evs, k') && Runner(k) in ids
    ensures At(k', k.tasks, ids, a0) && Shows(k'.memory, Runner(k), b)
  {
    hide Calls, Leads, Stepped, AtRest, Matched, Plain, Enough, ViewOf;
    ActStage(k, Store(ST, b), evs, k', ids, a0);
    HasStack(k, ids, a0, Runner(k));
    HasStack(k', ids, a0, Runner(k));
    SteppedAllowed(k.memory, StoreOp(Runner(k), ST, b), evs[0], k'.memory);
    AddressSplits(ST);
  }

  /** The child of a fork reads what the parent reads, from the same frames. */
  lemma ForkShows(k: State, evs: seq<Event>, k': State, ids: set<nat>, a0: Moment, b: bv8)
    requires At(k, k.tasks, ids, a0) && Calls(k, Fork, evs, k') && Runner(k) in ids && |ids| <= 2 && Shows(k.memory, Runner(k), b)
    ensures At(k', Tasks.Next(k.tasks, Tasks.Create), ids + {k.memory.next}, a0)
    ensures Shows(k'.memory, Runner(k), b) && Shows(k'.memory, k.memory.next, b)
    ensures k.memory.next in Sharers(k'.memory, Runner(k), StackPage()) && Runner(k) != k.memory.next
  {
    hide Calls, Leads, Stepped, AtRest, Matched, Plain, Enough, ViewOf, StackPage, Tasks.Next, HasByte;
    ActStage(k, Fork, evs, k', ids, a0);
    var c := k.memory.next;
    StageIs(k, ids, a0);
    StageIs(k', ids + {c}, a0);
    IdBelow(k, Runner(k));
    HasStack(k, ids, a0, Runner(k));
    HasStack(k', ids + {c}, a0, Runner(k));
    HasStack(k', ids + {c}, a0, c);
    SteppedAllowed(k.memory, ForkOp(Runner(k)), evs[0], k'.memory);
    ReadsSame(k.memory, Runner(k), k'.memory, Runner(k));
    ReadsSame(k.memory, Runner(k), k'.memory, c);
    ForkedSharers(k.memory, Runner(k), c, k'.memory);
  }

  lemma IdBelow(k: State, p: nat)
    requires Matched(k) && p in k.memory.dirs
    ensures p < k.memory.next
  {
    NotNext(k, p);
  }

  lemma ReadsSame(a: Moment, p: nat, b: Moment, q: nat)
    requires HasByte(a, p, ST) && HasByte(b, q, ST) && b.View().spaces[q] == a.View().spaces[p]
    ensures ByteAt(b, q, ST) == ByteAt(a, p, ST)
  {
  }

  lemma SteppedShares(a: Moment, p: nat, c: nat, b: Moment)
    requires Stepped(a, ForkOp(p), Child(c), b)
    ensures ForkShares(a, p, c, b)
  {
    hide Allowed, Next, Leftovers, Inherited, Scarce, StackLeft, Sharers, FramesStay, LeakFreeOp, ForkShares, ViewOf;
  }

  lemma ForkedSharers(a: Moment, p: nat, c: nat, b: Moment)
    requires Stepped(a, ForkOp(p), Child(c), b) && HasByte(a, p, ST) && AtRest(a) && AtRest(b) && p != c
    ensures c in Sharers(b, p, StackPage())
  {
    SteppedShares(a, p, c, b);
    hide Stepped, StackPage, HasByte;
    StackThere(a, p);
    Apart(b, p, c);
    hide AtRest;
    ForkSharers(a, p, c, b);
  }

  lemma StackThere(a: Moment, p: nat)
    requires HasByte(a, p, ST) && AtRest(a)
    ensures p in a.dirs && Slot(a.dirs[p], StackPage()) in a.x.m.leaves
  {
    RestImage(a);
    hide AtRest;
    Conservation.ViewKeys(a);
    InSpace(a.x.image, a.dirs[p], StackPage());
  }

  lemma Apart(a: Moment, p: nat, q: nat)
    requires AtRest(a)
    ensures p in a.dirs && q in a.dirs && p != q ==> a.dirs[p] != a.dirs[q]
  {
    hide Sound, Tidy, OwnerlessPrivate;
  }

  lemma ForkSharers(a: Moment, p: nat, c: nat, b: Moment)
    requires ForkShares(a, p, c, b) && Slot(a.dirs[p], StackPage()) in a.x.m.leaves && p != c && b.dirs[p] != b.dirs[c]
    ensures c in Sharers(b, p, StackPage())
  {
    hide PageOf;
    var page := StackPage();
    assert Slot(b.dirs[c], page) in b.x.m.leaves && Slot(b.dirs[p], page) in b.x.m.leaves;
  }

  lemma StageIs(k: State, ids: set<nat>, a0: Moment)
    requires At(k, k.tasks, ids, a0)
    ensures AtRest(k.memory) && k.memory.dirs.Keys == ids && Matched(k)
  {
    hide AtRest, Matched;
  }

  /** A load shows what is there, and moves nothing. */
  lemma LoadShows(k: State, evs: seq<Event>, k': State, ids: set<nat>, a0: Moment, b: bv8)
    requires At(k, k.tasks, ids, a0) && Calls(k, Load(ST), evs, k') && Runner(k) in ids && Shows(k.memory, Runner(k), b)
    ensures At(k', k.tasks, ids, a0) && evs == [Byte(b)] && k'.memory.View() == k.memory.View()
    ensures forall p <- ids :: Sharers(k'.memory, p, StackPage()) == Sharers(k.memory, p, StackPage())
  {
    hide Calls, Leads, Stepped, AtRest, Matched, Plain, Enough, ViewOf, StackPage, HasByte, Sharers, FramesStay, Allowed, Next;
    ActStage(k, Load(ST), evs, k', ids, a0);
    HasStack(k, ids, a0, Runner(k));
    SteppedAllowed(k.memory, LoadOp(Runner(k), ST), evs[0], k'.memory);
    LoadedByte(k.memory, Runner(k), evs[0], b);
    SteppedStays(k.memory, Runner(k), evs[0], k'.memory);
    SameKeys(k, k', ids, a0);
    forall p <- ids ensures Sharers(k'.memory, p, StackPage()) == Sharers(k.memory, p, StackPage()) {
      SharersStay(k.memory, k'.memory, p, StackPage());
    }
  }

  lemma LoadedByte(a: Moment, p: nat, ev: Event, b: bv8)
    requires Allowed(a.View(), LoadOp(p, ST), ev) && Shows(a, p, b)
    ensures ev == Byte(b) && Next(a.View(), LoadOp(p, ST), ev) == a.View()
  {
  }

  lemma SteppedStays(a: Moment, p: nat, ev: Event, b: Moment)
    requires Stepped(a, LoadOp(p, ST), ev, b)
    ensures FramesStay(a, b)
  {
    hide Allowed, Next, Leftovers, Inherited, Scarce, StackLeft, Sharers, FramesStay, LeakFreeOp, ForkShares, ViewOf;
  }

  lemma SameKeys(k: State, k': State, ids: set<nat>, a0: Moment)
    requires At(k, k.tasks, ids, a0) && At(k', k'.tasks, ids, a0)
    ensures k.memory.dirs.Keys == k'.memory.dirs.Keys == ids
  {
    hide AtRest, Matched;
  }

  // ---------------------------------------------------------------- the wait

  lemma StackMapped(space: Space)
    requires StackPage() in space
    ensures FirstMissing(space, ST, 0) == 4
  {
    assert MappedAt(space, ST, 0) && MappedAt(space, ST, 1) && MappedAt(space, ST, 2) && MappedAt(space, ST, 3);
  }

  lemma OneInBytes()
    ensures WordByte(1 % 0x1_0000_0000, 0) == 1
  {
  }

  /** The exit code goes to the stack page of the caller, and shows on the other child's. */
  lemma WaitSpills(k: State, evs: seq<Event>, k': State, a0: Moment)
    requires At(k, Waiting1(), {1, 2, 3}, a0) && Calls(k, WaitAny(ST), evs, k')
    requires Shows(k.memory, 3, 0) && 3 in Sharers(k.memory, 1, StackPage())
    ensures k'.tasks == Reaped2() && Matched(k') && 3 in k'.memory.dirs && Shows(k'.memory, 3, 1) && Spilled(k, WaitAny(ST), k', 3)
  {
    hide Calls, Leads, Stepped, AtRest, Matched, Plain, Enough, ViewOf, StackPage, HasByte, ByteAt, Sharers, Waiting1, FirstMissing;
    Rings3();
    Rings4();
    WaitTasks(k, evs, k');
    StageIs(k, {1, 2, 3}, a0);
    WaitMatched(k, WaitAny(ST), evs, k');
    WaitDirs(k, WaitAny(ST), evs, k');
    HasStack(k, {1, 2, 3}, a0, 1);
    StackMapped(RunnerSpace(k));
    OneInBytes();
    assert StoresStatus(k, WaitAny(ST), k') && ExitBytes(k')[0] == 1;
    StackIs();
    hide StoresStatus, ExitBytes, RunnerSpace;
    WaitEffect(k, WaitAny(ST), evs, k', 3, ST);
    assert SpilledAt(k, WaitAny(ST), k', 3, 0);
  }

  lemma StackIs()
    ensures PageOf(ST + 0) == StackPage() && ST + 0 == ST
  {
  }

  lemma WaitTasks(k: State, evs: seq<Event>, k': State)
    requires Calls(k, WaitAny(ST), evs, k')
    ensures k'.tasks == Tasks.Next(k.tasks, Tasks.WaitAny)
  {
    hide Leads, Tasks.Next, Tasks.Allowed;
  }

  lemma LoadReads(k: State, evs: seq<Event>, k': State, b: bv8)
    requires Matched(k) && Calls(k, Load(ST), evs, k') && Shows(k.memory, Runner(k), b)
    ensures evs == [Byte(b)]
  {
    hide Calls, Leads, Stepped, AtRest, Matched, ViewOf, StackPage, HasByte, Allowed, Next;
    ActIs(k, Load(ST), evs, k');
    SteppedAllowed(k.memory, LoadOp(Runner(k), ST), evs[0], k'.memory);
    LoadedByte(k.memory, Runner(k), evs[0], b);
  }

  lemma LoadTold(k: State)
    ensures !Untold(k, Load(ST)) && !Untold(k, WaitAny(ST))
  {
  }

  // ---------------------------------------------------------------- the run

  function CallAt(n: nat): Call {
    if n == 0 then Run(NoSegments()) else if n == 2 then Store(ST, 0) else if n == 3 || n == 7 then Fork
    else if n == 5 then Exit(1) else if n == 9 || n == 14 then Load(ST) else if n == 12 then WaitAny(ST) else Preempt
  }

  /** The shell starts a program; it stores 0 on its stack, and forks a child, which exits with code 1; it forks another, which
      loads what is on its stack; it waits for a child, with the code to go to its stack; the other child loads again. */
  function Script(): seq<Call> { seq(15, n requires 0 <= n => CallAt(n)) }

  function TasksAt(n: nat): Tasks.System {
    if n == 0 then Tasks.Booted() else if n == 1 then Started1() else if n <= 3 then Running1() else if n == 4 then Forked2()
    else if n == 5 then Running2() else if n == 6 then Exited2() else if n == 7 then Again1() else if n == 8 then Forked3()
    else if n <= 10 then Running3() else if n == 11 then Shell() else if n == 12 then Waiting1() else if n == 13 then Reaped2()
    else Later3()
  }

  function IdsAt(n: nat): set<nat> { if n == 0 then {} else if n <= 3 then {1} else if n <= 7 then {1, 2} else {1, 2, 3} }

  /** How things stand after n of the calls. */
  ghost predicate Stage(n: nat, k: State, a0: Moment) {
    && k.tasks == TasksAt(n) && Matched(k)
    && (n == 0 ==> AtBoot0(k) && k.memory == a0)
    && (0 < n <= 12 ==> At(k, k.tasks, IdsAt(n), a0))
    && (3 <= n <= 7 ==> Shows(k.memory, 1, 0))
    && (8 <= n <= 12 ==> Shows(k.memory, 3, 0) && 3 in Sharers(k.memory, 1, StackPage()))
    && (13 <= n ==> Shows(k.memory, 3, 1))
  }

  function RunnerOf(n: nat): nat {
    if n <= 1 || n == 6 || n == 11 then 0 else if n == 5 then 2 else if n == 9 || n == 10 || n == 14 then 3 else 1
  }

  lemma Rings0()
    ensures Tasks.Booted().ring == [T(0)]
  {
  }

  /** Who runs, and how. */
  lemma RunnerAt(n: nat)
    requires n <= 14
    ensures TasksAt(n).ring != [] && TasksAt(n).ring[0] == T(RunnerOf(n))
  {
    hide Started1, Running1, Forked2, Running2, Exited2, Again1, Forked3, Running3, Shell, Waiting1, Reaped2, Later3, T, Tasks.Booted;
    Rings0();
    if n <= 5 { Rings1(); }
    else if n <= 10 { Rings2(); }
    else if n <= 12 { Rings3(); }
    else { Rings4(); }
  }

  lemma CanMake(k: State, id: nat)
    requires k.tasks.ring != [] && k.tasks.ring[0] == T(id)
    ensures Runner(k) == id && CanCall(k, Preempt) && CanCall(k, Exit(1))
    ensures id != 0 ==> CanCall(k, Fork) && CanCall(k, Load(ST)) && CanCall(k, Store(ST, 0))
    ensures id == 0 ==> CanCall(k, Run(NoSegments()))
    ensures id != 0 && Tasks.Allowed(k.tasks, Tasks.WaitAny) ==> CanCall(k, WaitAny(ST))
  {
    hide Tasks.ZombieChild, NoSegments;
  }

  /** Each call can be made, and followed, when its turn comes. */
  lemma Possible(n: nat, k: State, a0: Moment)
    requires n <= 14 && Stage(n, k, a0)
    ensures CanCall(k, CallAt(n)) && !Untold(k, CallAt(n))
  {
    hide Matched, At, AtBoot0, Shows, Untold, CanCall, Tasks.Allowed, T, Waiting1, NoSegments;
    RunnerAt(n);
    CanMake(k, RunnerOf(n));
    LoadTold(k);
    RingTold(k);
    if n == 12 { CanWait(); }
    else if n == 0 { SpawnTold(k); }
    else if n == 2 || n == 3 || n == 7 { Told(k, CallAt(n), IdsAt(n), a0); }
  }

  lemma RingTold(k: State)
    ensures !Untold(k, Preempt) && !Untold(k, Exit(1))
  {
  }

  lemma RingStep(n: nat, k: State, evs: seq<Event>, k': State, a0: Moment)
    requires n <= 14 && Stage(n, k, a0) && RingOnly(CallAt(n)) && Calls(k, CallAt(n), evs, k')
    ensures Stage(n + 1, k', a0) && evs == []
  {
    hide Matched, AtBoot0, Leads, Shows, Sharers, T, Tasks.Next, Tasks.Allowed, Plain, Enough;
    RingMatched(k, CallAt(n), evs, k');
    CallLeads(k, CallAt(n), evs, k');
    LeadsNowhere(k.memory, [], evs, k'.memory);
    assert k'.tasks == Tasks.Next(k.tasks, TaskEvent(CallAt(n)));
    assert k'.tasks == TasksAt(n + 1);
  }

  lemma NextId(k: State)
    requires Matched(k)
    ensures k.memory.next == k.tasks.nextId
  {
  }

  /** Who runs at a stage, and what is known then. */
  lemma StageFacts(n: nat, k: State, a0: Moment)
    requires n <= 14 && Stage(n, k, a0)
    ensures k.tasks == TasksAt(n) && Runner(k) == RunnerOf(n) && Matched(k) && k.memory.next == k.tasks.nextId
    ensures 0 < n <= 12 ==> At(k, k.tasks, IdsAt(n), a0)
    ensures 3 <= n <= 7 ==> Shows(k.memory, 1, 0)
    ensures 8 <= n <= 12 ==> Shows(k.memory, 3, 0) && 3 in Sharers(k.memory, 1, StackPage())
    ensures n >= 13 ==> Shows(k.memory, 3, 1)
  {
    RunnerAt(n);
    NextId(k);
    hide Matched, At, AtBoot0, Shows, Sharers, RunnerOf, TasksAt;
  }

  lemma StageMade(n: nat, k: State, a0: Moment)
    requires 0 < n <= 12 && k.tasks == TasksAt(n) && At(k, k.tasks, IdsAt(n), a0)
    requires 3 <= n <= 7 ==> Shows(k.memory, 1, 0)
    requires 8 <= n <= 12 ==> Shows(k.memory, 3, 0) && 3 in Sharers(k.memory, 1, StackPage())
    ensures Stage(n, k, a0)
  {
    StageIs(k, IdsAt(n), a0);
    hide Matched, At, AtBoot0, Shows, Sharers, TasksAt;
  }

  lemma SpawnStep(k: State, evs: seq<Event>, k': State, a0: Moment)
    requires Stage(0, k, a0) && Calls(k, CallAt(0), evs, k')
    ensures Stage(1, k', a0) && |evs| == 1 && !evs[0].Halted?
  {
    hide Matched, AtBoot0, Calls, NoSegments, Started1, At, Shows;
    SpawnStage(k, evs, k');
    AtTasks(k', Started1(), {1}, k.memory);
    StageMade(1, k', a0);
  }

  lemma AtTasks(k: State, tasks: Tasks.System, ids: set<nat>, a0: Moment)
    requires At(k, tasks, ids, a0)
    ensures k.tasks == tasks
  {
    hide Matched, Plain, Enough;
  }

  lemma StoreStep(k: State, evs: seq<Event>, k': State, a0: Moment)
    requires Stage(2, k, a0) && Calls(k, CallAt(2), evs, k')
    ensures Stage(3, k', a0) && |evs| == 1 && !evs[0].Halted?
  {
    hide Stage, Matched, Calls, At, Running1, Stepped, ViewOf, HasByte, Shows, RunnerOf;
    StageFacts(2, k, a0);
    assert RunnerOf(2) == 1 by { WhoRuns(); }
    StoreShows(k, 0, evs, k', {1}, a0);
    AtTasks(k', k.tasks, {1}, a0);
    StageMade(3, k', a0);
    ActStage(k, Store(ST, 0), evs, k', {1}, a0);
    HasStack(k, {1}, a0, 1);
    SteppedAllowed(k.memory, StoreOp(1, ST, 0), evs[0], k'.memory);
  }

  lemma WhoRuns()
    ensures RunnerOf(2) == RunnerOf(3) == RunnerOf(7) == 1 && RunnerOf(9) == RunnerOf(14) == 3
  {
  }

  lemma ForkStep(n: nat, k: State, evs: seq<Event>, k': State, a0: Moment)
    requires (n == 3 || n == 7) && Stage(n, k, a0) && Calls(k, CallAt(n), evs, k')
    ensures Stage(n + 1, k', a0) && |evs| == 1 && !evs[0].Halted?
  {
    hide Stage, Matched, Calls, At, Running1, Again1, Stepped, ViewOf, HasByte, Shows, RunnerOf, Sharers, Tasks.Next, StackPage, AtRest;
    StageFacts(n, k, a0);
    WhoRuns();
    Rings1();
    Rings2();
    ForkShows(k, evs, k', IdsAt(n), a0, 0);
    AtTasks(k', Tasks.Next(k.tasks, Tasks.Create), IdsAt(n) + {k.memory.next}, a0);
    assert IdsAt(n) + {k.memory.next} == IdsAt(n + 1);
    StageMade(n + 1, k', a0);
    ActStage(k, Fork, evs, k', IdsAt(n), a0);
  }

  lemma LoadStep(k: State, evs: seq<Event>, k': State, a0: Moment)
    requires Stage(9, k, a0) && Calls(k, CallAt(9), evs, k')
    ensures Stage(10, k', a0) && evs == [Byte(0)]
  {
    hide Stage, Matched, Calls, At, Running3, Stepped, ViewOf, Shows, RunnerOf, Sharers, StackPage, AtRest;
    StageFacts(9, k, a0);
    WhoRuns();
    LoadShows(k, evs, k', {1, 2, 3}, a0, 0);
    AtTasks(k', k.tasks, {1, 2, 3}, a0);
    SameShows(k.memory, k'.memory, 3, 0);
    StageMade(10, k', a0);
  }

  lemma SameShows(a: Moment, b: Moment, p: nat, byte: bv8)
    requires Shows(a, p, byte) && b.View() == a.View()
    ensures Shows(b, p, byte)
  {
    hide ViewOf;
  }

  lemma WaitStep(k: State, evs: seq<Event>, k': State, a0: Moment)
    requires Stage(12, k, a0) && Calls(k, CallAt(12), evs, k')
    ensures Stage(13, k', a0) && !Halts(evs) && Spilled(k, CallAt(12), k', 3)
  {
    hide Matched, Leads, Sharers, Tasks.Next, Tasks.Allowed, Plain, Enough, Calls, Waiting1, Reaped2, Stepped, AtRest, ViewOf;
    hide StackPage, SpilledAt, StoresStatus, Shows, At;
    WaitSpills(k, evs, k', a0);
    WaitGoesOn(k, CallAt(12), evs, k');
  }

  /** A store of the exit code does not halt the machine. */
  lemma WaitGoesOn(k: State, call: Call, evs: seq<Event>, k': State)
    requires Matched(k) && Calls(k, call, evs, k') && StoresStatus(k, call, k')
    ensures !Halts(evs)
  {
    hide Leads, Stepped, HasByte, ViewOf, Tasks.Next, Tasks.Allowed, ExitBytes, PageOf, Matched, Calls, AtRest, Sharers, PokeOps;
    CallLeads(k, call, evs, k');
    MatchedRests(k);
    WaitMatched(k, call, evs, k');
    var pid := JustReaped(k'.tasks);
    var m := LeadsFirst(k.memory, ReapOp(pid), StatusOps(k, call, k'), evs, k'.memory);
    CallerAfter(k, call, k', m, VPage(0, 0));
    MappedBytes(m, Runner(k), call.status);
    LeadsNowhere(m, StatusOps(k, call, k'), evs[1..], k'.memory);
    assert HasByteAt(m, Runner(k), call.status, 0);
    PokesEffect(m, Runner(k), call.status, ExitBytes(k'), evs[1..], k'.memory, Runner(k), call.status);
    assert evs[|evs| - 1] in evs[1..];
  }

  /** The other child's memory has changed while it slept. */
  lemma LastStep(k: State, evs: seq<Event>, k': State, a0: Moment)
    requires Stage(14, k, a0) && Calls(k, CallAt(14), evs, k')
    ensures evs == [Byte(1)]
  {
    hide Stage, Matched, Calls, Later3, Shows, RunnerOf;
    StageFacts(14, k, a0);
    WhoRuns();
    LoadReads(k, evs, k', 1);
  }

  /** How a call of the script ends. */
  ghost predicate Ends(n: nat, evs: seq<Event>) {
    !Halts(evs) && (n == 9 ==> evs == [Byte(0)]) && (n == 14 ==> evs == [Byte(1)])
  }

  lemma StageStep(n: nat, k: State, evs: seq<Event>, k': State, a0: Moment)
    requires n <= 14 && Stage(n, k, a0) && Calls(k, CallAt(n), evs, k')
    ensures Ends(n, evs) && (n < 14 ==> Stage(n + 1, k', a0))
  {
    hide Stage, Calls, CallAt;
    if n == 0 { SpawnStep(k, evs, k', a0); }
    else if n == 2 { StoreStep(k, evs, k', a0); }
    else if n == 3 || n == 7 { ForkStep(n, k, evs, k', a0); }
    else if n == 9 { LoadStep(k, evs, k', a0); }
    else if n == 12 { WaitStep(k, evs, k', a0); }
    else if n == 14 { LastStep(k, evs, k', a0); }
    else {
      RingCall(n);
      RingStep(n, k, evs, k', a0);
    }
  }

  lemma RingCall(n: nat)
    requires n <= 13 && n != 0 && n != 2 && n != 3 && n != 7 && n != 9 && n != 12
    ensures RingOnly(CallAt(n))
  {
  }

  /** Whatever run the script makes, it goes through its stages. */
  lemma {:induction false} Stages(trail: seq<State>, evs: seq<seq<Event>>)
    requires |evs| <= 15 && Runs(trail, Script()[..|evs|], evs) && Stage(0, trail[0], trail[0].memory)
    ensures |evs| <= 14 ==> Stage(|evs|, trail[|evs|], trail[0].memory)
    ensures forall i: nat :: i < |evs| ==> Ends(i, evs[i])
    decreases |evs|
  {
    hide Stage, Calls, Ends, CallAt;
    if evs != [] {
      var n := |evs| - 1;
      RunsBefore(trail, Script()[..n + 1], evs);
      assert Script()[..n + 1][..n] == Script()[..n] && Script()[n] == CallAt(n);
      Stages(trail[..n + 1], evs[..n]);
      StageStep(n, trail[n], evs[n], trail[n + 1], trail[0].memory);
      forall i: nat | i < |evs| ensures Ends(i, evs[i]) { if i < n { assert evs[..n][i] == evs[i]; } }
    }
  }

  lemma ScriptPlays(k: State)
    requires Stage(0, k, k.memory)
    ensures Playable(k, Script())
  {
    hide Stage, Calls, Ends, CallAt, CanCall, Untold;
    forall trail: seq<State>, evs: seq<seq<Event>> | |evs| < 15 && Runs(trail, Script()[..|evs|], evs) && trail[0] == k
      ensures CanCall(trail[|evs|], Script()[|evs|])
    {
      Stages(trail, evs);
      Possible(|evs|, trail[|evs|], k.memory);
    }
  }

  /** From boot, with sixteen frames to spare: the child that only reads, and is asleep from its first load to its second, finds
      0 the first time and the other's exit code the second. */
  method StatusSeen(machine: Machine) returns (evs: seq<seq<Event>>)
    requires machine.Valid() && machine.Now().tasks == Tasks.Booted() && Ownerless(machine.Now().memory) == {}
    requires Enough(machine.Now().memory)
    modifies machine.tasks, machine.tasks.ring
    modifies machine.processes, machine.processes.mem, machine.processes.mem.ram, machine.processes.mem.pmm
    modifies machine.processes.mem.pmm.frameBitmap, machine.processes.mem.pmm.frameRefcount
    ensures |evs| == 15 && Script()[9] == Script()[14] == Load(ST) && evs[9] == [Byte(0)] && evs[14] == [Byte(1)]
  {
    hide Stage, Calls, CallAt, CanCall, Untold, Matched, Playable, ProcessTable.Valid, ProcessTable.Now, Ownerless, Enough;
    ghost var k := machine.Now();
    FirstStage(k);
    ScriptPlays(k);
    NoGrowth();
    var ok;
    ghost var trail;
    ok, evs, trail := machine.Run(Script());
    Stages(trail, evs);
    assert |evs| > 0 ==> Ends(|evs| - 1, evs[|evs| - 1]);
    if |evs| < 15 {
      assert Script()[|evs|] == CallAt(|evs|);
      Possible(|evs|, trail[|evs|], k.memory);
    }
    assert |evs| == 15;
    LoadsTwice();
    assert Ends(9, evs[9]) && Ends(14, evs[14]);
  }

  lemma LoadsTwice()
    ensures CallAt(9) == Load(ST) && CallAt(14) == Load(ST)
  {
  }

  lemma NoGrowth()
    ensures |Script()| == 15 && forall call <- Script() :: !call.Grow?
  {
  }

  lemma FirstStage(k: State)
    requires k.tasks == Tasks.Booted() && Matched(k) && Ownerless(k.memory) == {} && Enough(k.memory)
    ensures Stage(0, k, k.memory)
  {
    hide AtRest, Tasks.Sound, Ownerless, Enough, ViewOf;
    Conservation.ViewKeys(k.memory);
    assert Ids(Tasks.Booted().ring) == {0};
  }
}
