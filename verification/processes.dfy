/** Processes as the system calls see them: fork, ring-3 loads and stores, exec, and reaping, over the
    copy-on-write machinery; and the eager semantics they are meant to have, where fork copies all of
    the parent's memory at once. */
module Processes {
  import opened Options
  import opened Bytes
  import opened Pmm
  import opened PageTables
  import opened Paging
  import opened Fork
  import opened UserAccess
  import opened Elf
  import opened Teardown
  import opened Accounting
  import opened KernelStores
  import opened ElfBounds

  // ---------------------------------------------------------------- the eager semantics

  type Space = map<VPage, seq<bv8>>

  /** Every process has memory of its own. */
  datatype Eager = Eager(spaces: map<nat, Space>, next: nat)

  datatype Op =
    | ForkOp(pid: nat)
    | LoadOp(pid: nat, virt: nat)
    | StoreOp(pid: nat, virt: nat, b: bv8)
    | PokeOp(pid: nat, virt: nat, b: bv8)
    | ExecOp(pid: nat, elf: seq<bv8>)
    | SpawnOp(elf: seq<bv8>)
    | ReapOp(pid: nat)
    | HeapOp(heapEnd: nat)

  /** What an operation shows its caller. A new program's stack page holds whatever its frame held, so those bytes are part
      of the event; a store by the kernel for a process is seen by all whose page lies in the same frame. */
  datatype Event =
    | Child(pid: nat)
    | Byte(b: bv8)
    | Stored
    | Poked(sharers: set<nat>)
    | Halted
    | Started(pid: nat, entry: nat, stack: seq<bv8>)
    | Refused
    | OutOfFrames
    | Reaped
    | Grown
    | NoProcess

  const USER_STACK_VADDR := 0x4010_0000

  function LoadSpace(space: Space, pages: seq<LoadPage>): Space {
    if pages == [] then space
    else
      var before, last := LoadSpace(space, pages[..|pages| - 1]), pages[|pages| - 1];
      if PageOf(last.virt).pd < IDENTITY_TABLES then before else before[PageOf(last.virt) := last.bytes]
  }

  /** A fresh program image: the file's segments, and a stack page over whatever lies there. */
  function ProgramSpace(elf: seq<bv8>, stack: seq<bv8>): Space {
    LoadSpace(map[], PagesToLoad(elf, SegmentCount(elf)))[PageOf(USER_STACK_VADDR) := stack]
  }

  function PokeSpace(space: Space, virt: nat, b: bv8): Space {
    if PageOf(virt) in space && OffsetOf(virt) < |space[PageOf(virt)]|
    then space[PageOf(virt) := space[PageOf(virt)][OffsetOf(virt) := b]] else space
  }

  /** The eager meaning of an operation, given the event it produced. */
  function Next(e: Eager, op: Op, ev: Event): Eager {
    match (op, ev)
    case (ForkOp(p), Child(_)) => if p in e.spaces then Eager(e.spaces[e.next := e.spaces[p]], e.next + 1) else e
    case (StoreOp(p, virt, b), Stored) => if p in e.spaces then e.(spaces := e.spaces[p := PokeSpace(e.spaces[p], virt, b)]) else e
    case (PokeOp(_, virt, b), Poked(sharers)) =>
      e.(spaces := map q <- e.spaces :: if q in sharers then PokeSpace(e.spaces[q], virt, b) else e.spaces[q])
    case (ExecOp(p, elf), Started(_, _, stack)) => e.(spaces := e.spaces[p := ProgramSpace(elf, stack)])
    case (SpawnOp(elf), Started(_, _, stack)) => Eager(e.spaces[e.next := ProgramSpace(elf, stack)], e.next + 1)
    case (ReapOp(p), Reaped) => e.(spaces := e.spaces - {p})
    case _ => e
  }

  /** The events an operation may produce. Whether frames run out is all that the memories do not determine; Scarce does. */
  predicate Allowed(e: Eager, op: Op, ev: Event) {
    match op
    case ForkOp(p) => ev == if p in e.spaces then Child(e.next) else NoProcess
    case LoadOp(p, virt) =>
      if p !in e.spaces then ev == NoProcess
      else if PageOf(virt) in e.spaces[p]
      then OffsetOf(virt) < |e.spaces[p][PageOf(virt)]| && ev == Byte(e.spaces[p][PageOf(virt)][OffsetOf(virt)])
      else ev == Halted
    case StoreOp(p, virt, b) =>
      ev == if p !in e.spaces then NoProcess else if PageOf(virt) in e.spaces[p] then Stored else Halted
    case PokeOp(p, virt, _) =>
      if p !in e.spaces then ev == NoProcess
      else if PageOf(virt) !in e.spaces[p] then ev == Halted
      else
        && ev.Poked? && p in ev.sharers && ev.sharers <= e.spaces.Keys
        && forall q <- ev.sharers :: PageOf(virt) in e.spaces[q] && e.spaces[q][PageOf(virt)] == e.spaces[p][PageOf(virt)]
    case ExecOp(p, elf) =>
      if p !in e.spaces then ev == NoProcess
      else if !IsElf32(elf) then ev == Refused
      else ev == OutOfFrames || (ev.Started? && ev.pid == p && ev.entry == EntryPoint(elf) && |ev.stack| == FRAME_SIZE)
    case SpawnOp(elf) =>
      if !IsElf32(elf) then ev == Refused
      else ev == OutOfFrames || (ev.Started? && ev.pid == e.next && ev.entry == EntryPoint(elf) && |ev.stack| == FRAME_SIZE)
    case ReapOp(p) => ev == if p in e.spaces then Reaped else NoProcess
    case HeapOp(_) => ev == Grown
  }

  /** A run of operations with the events they produced. */
  function After(e: Eager, ops: seq<Op>, evs: seq<Event>): Eager
    requires |ops| == |evs|
  {
    if ops == [] then e
    else Next(After(e, ops[..|ops| - 1], evs[..|evs| - 1]), ops[|ops| - 1], evs[|evs| - 1])
  }

  ghost predicate AllAllowed(e: Eager, ops: seq<Op>, evs: seq<Event>)
    requires |ops| == |evs|
  {
    forall i :: 0 <= i < |ops| ==> Allowed(After(e, ops[..i], evs[..i]), ops[i], evs[i])
  }

  /** The process an operation acts for; spawning and growing the kernel's heap act for none. */
  function Actor(op: Op): Option<nat> { if op.SpawnOp? || op.HeapOp? then None else Some(op.pid) }

  /** An operation that can change a process's memory: its own, or a store by the kernel to a frame it shares. */
  predicate Concerns(op: Op, ev: Event, p: nat) { Actor(op) == Some(p) || (ev.Poked? && p in ev.sharers) }

  /** Isolation: whatever other processes do, a process's memory stays as it is, but for what the kernel stores for another
      into a frame that the two share. */
  lemma {:induction false} Isolation(e: Eager, ops: seq<Op>, evs: seq<Event>, p: nat)
    requires |ops| == |evs| && p in e.spaces && (forall q <- e.spaces :: q < e.next)
    requires forall i :: 0 <= i < |ops| ==> !Concerns(ops[i], evs[i], p)
    ensures p in After(e, ops, evs).spaces && After(e, ops, evs).spaces[p] == e.spaces[p]
    ensures p < After(e, ops, evs).next
  {
    if ops != [] {
      Isolation(e, ops[..|ops| - 1], evs[..|evs| - 1], p);
      assert !Concerns(ops[|ops| - 1], evs[|ops| - 1], p);
    }
  }

  /** Fork copies: whatever happens later, for as long as nothing concerns the child its memory is what the parent's was at
      the fork, and for as long as nothing concerns the parent its memory is too. */
  lemma ForkedApart(e: Eager, p: nat, ops: seq<Op>, evs: seq<Event>)
    requires |ops| == |evs| && p in e.spaces && (forall q <- e.spaces :: q < e.next)
    ensures var child, later := e.next, After(Next(e, ForkOp(p), Child(e.next)), ops, evs);
      && ((forall i :: 0 <= i < |ops| ==> !Concerns(ops[i], evs[i], child)) ==>
            child in later.spaces && later.spaces[child] == e.spaces[p])
      && ((forall i :: 0 <= i < |ops| ==> !Concerns(ops[i], evs[i], p)) ==>
            p in later.spaces && later.spaces[p] == e.spaces[p])
  {
    var forked := Next(e, ForkOp(p), Child(e.next));
    if forall i :: 0 <= i < |ops| ==> !Concerns(ops[i], evs[i], e.next) { Isolation(forked, ops, evs, e.next); }
    if forall i :: 0 <= i < |ops| ==> !Concerns(ops[i], evs[i], p) { Isolation(forked, ops, evs, p); }
  }

  // ---------------------------------------------------------------- reading spaces out of an image

  function SpaceOf(image: Image, d: nat): Space {
    map p <- (set s <- image | s.dir == d :: s.page) :: image[Slot(d, p)]
  }

  lemma SpaceIs(image: Image, d: nat, space: Space)
    requires forall p: VPage :: p in space <==> Slot(d, p) in image
    requires forall p <- space :: space[p] == image[Slot(d, p)]
    ensures SpaceOf(image, d) == space
  {
    assert forall p: VPage :: Slot(d, p) in image ==> Slot(d, p).dir == d && Slot(d, p).page == p;
  }

  lemma InSpace(image: Image, d: nat, p: VPage)
    ensures p in SpaceOf(image, d) <==> Slot(d, p) in image
    ensures p in SpaceOf(image, d) ==> SpaceOf(image, d)[p] == image[Slot(d, p)]
  {
  }

  /** Images that agree on a directory give it the same space. */
  lemma SameSpace(image: Image, image': Image, d: nat)
    requires forall p: VPage :: Slot(d, p) in image <==> Slot(d, p) in image'
    requires forall p: VPage :: Slot(d, p) in image ==> image[Slot(d, p)] == image'[Slot(d, p)]
    ensures SpaceOf(image, d) == SpaceOf(image', d)
  {
    forall p: VPage ensures p in SpaceOf(image', d) <==> Slot(d, p) in image { InSpace(image', d, p); }
    forall p: VPage | p in SpaceOf(image', d) ensures SpaceOf(image', d)[p] == image[Slot(d, p)] { InSpace(image', d, p); }
    SpaceIs(image, d, SpaceOf(image', d));
  }

  lemma SpaceAfterFork(image: Image, p: nat, c: nat, d: nat)
    requires forall s <- image :: s.dir != c
    ensures SpaceOf(EagerFork(image, p, c), d) == SpaceOf(image, if d == c then p else d)
  {
    var o := if d == c then p else d;
    forall q: VPage
      ensures q in SpaceOf(image, o) <==> Slot(d, q) in EagerFork(image, p, c)
      ensures q in SpaceOf(image, o) ==> SpaceOf(image, o)[q] == EagerFork(image, p, c)[Slot(d, q)]
    {
      InSpace(image, o, q);
    }
    SpaceIs(EagerFork(image, p, c), d, SpaceOf(image, o));
  }

  lemma SpaceAfterPoke(image: Image, d: nat, virt: nat, b: bv8, d': nat)
    requires SlotOf(d, virt) in image
    ensures SpaceOf(Poke(image, SlotOf(d, virt), OffsetOf(virt), b), d') ==
      if d == d' then PokeSpace(SpaceOf(image, d), virt, b) else SpaceOf(image, d')
  {
    var image' := Poke(image, SlotOf(d, virt), OffsetOf(virt), b);
    var space := if d == d' then PokeSpace(SpaceOf(image, d), virt, b) else SpaceOf(image, d');
    InSpace(image, d, PageOf(virt));
    forall q: VPage
      ensures q in space <==> Slot(d', q) in image'
      ensures q in space ==> space[q] == image'[Slot(d', q)]
    {
      InSpace(image, d', q);
    }
    SpaceIs(image', d', space);
  }

  /** A store by the kernel changes the page wherever it lies in the same frame. */
  lemma SpaceAfterKernelPoke(x: Memory, s: Slot, virt: nat, b: bv8, d: nat)
    requires Sound(x) && s in x.m.leaves && s.page == PageOf(virt)
    ensures x.image.Keys == x.m.leaves.Keys && forall u <- x.image :: |x.image[u]| == FRAME_SIZE
    ensures SpaceOf(KernelPoked(x, s, OffsetOf(virt), b), d) ==
      if SameFrame(x.m, s, Slot(d, s.page)) then PokeSpace(SpaceOf(x.image, d), virt, b) else SpaceOf(x.image, d)
  {
    hide Sound;
    ImageShape(x);
    var image' := KernelPoked(x, s, OffsetOf(virt), b);
    var shared := SameFrame(x.m, s, Slot(d, s.page));
    var space := if shared then PokeSpace(SpaceOf(x.image, d), virt, b) else SpaceOf(x.image, d);
    forall q: VPage
      ensures q in space <==> Slot(d, q) in image'
      ensures q in space ==> space[q] == image'[Slot(d, q)]
    {
      InSpace(x.image, d, q);
      if Slot(d, q) in x.m.leaves && q != s.page { SameFrameSamePage(x, s, Slot(d, q)); }
    }
    hide PokeSpace, KernelPoked, SpaceOf, PageOf, OffsetOf;
    SpaceIs(image', d, space);
  }

  lemma SpaceAfterDrop(image: Image, d: nat, d': nat)
    requires d != d'
    ensures SpaceOf(EagerDrop(image, d), d') == SpaceOf(image, d')
  {
    SameSpace(EagerDrop(image, d), image, d');
  }

  lemma {:induction false} SpaceAfterLoad(image: Image, dir: nat, pages: seq<LoadPage>, d: nat)
    ensures SpaceOf(ImageWith(image, dir, pages), d) ==
      if d == dir then LoadSpace(SpaceOf(image, dir), pages) else SpaceOf(image, d)
  {
    if pages != [] {
      var before, last := pages[..|pages| - 1], pages[|pages| - 1];
      SpaceAfterLoad(image, dir, before, d);
      SpaceAfterPage(ImageWith(image, dir, before), dir, last, d);
    }
  }

  lemma SpaceAfterPage(image: Image, dir: nat, page: LoadPage, d: nat)
    ensures SpaceOf(WithPage(image, dir, page), d) ==
      if d == dir && PageOf(page.virt).pd >= IDENTITY_TABLES then SpaceOf(image, d)[PageOf(page.virt) := page.bytes]
      else SpaceOf(image, d)
  {
    var image' := WithPage(image, dir, page);
    var space := if d == dir && PageOf(page.virt).pd >= IDENTITY_TABLES then SpaceOf(image, d)[PageOf(page.virt) := page.bytes]
      else SpaceOf(image, d);
    forall q: VPage
      ensures q in space <==> Slot(d, q) in image'
      ensures q in space ==> space[q] == image'[Slot(d, q)]
    {
      InSpace(image, d, q);
    }
    SpaceIs(image', d, space);
  }

  // ---------------------------------------------------------------- what the code takes for granted

  /** A page of d, before a position of the nested loops, whose frame's 8-bit count is full. */
  ghost predicate Saturated(x: Memory, d: nat, pd: nat, pt: nat) {
    exists s <- x.m.leaves :: s.dir == d && Before(s.page, pd, pt) && x.m.leaves[s].frame < MAX_FRAMES &&
      x.counts[x.m.leaves[s].frame] == 255
  }

  function IndexesBelow(m: Layout, d: nat, pd: nat): set<nat> { set i <- TableIndexes(m, d) | i < pd }

  lemma SaturatedStep(x: Memory, d: nat, pd: nat, pt: nat)
    requires Sound(x)
    ensures var s := Slot(d, VPage(pd, pt));
      Saturated(x, d, pd, pt + 1) <==> (Saturated(x, d, pd, pt) ||
        (s in x.m.leaves && x.m.leaves[s].frame < MAX_FRAMES && x.counts[x.m.leaves[s].frame] == 255))
  {
    hide Sound;
    var s := Slot(d, VPage(pd, pt));
    forall u: Slot | u.dir == d
      ensures Before(u.page, pd, pt + 1) <==> Before(u.page, pd, pt) || u == s
    {
    }
    if s in x.m.leaves && x.m.leaves[s].frame < MAX_FRAMES && x.counts[x.m.leaves[s].frame] == 255 {
      assert Before(s.page, pd, pt + 1);
    }
  }

  lemma SaturatedRow(x: Memory, d: nat, pd: nat, pt: nat)
    requires Sound(x) && (pt == ENTRIES || (pt == 0 && TableSlot(d, pd) !in x.m.tables))
    ensures Saturated(x, d, pd + 1, 0) <==> Saturated(x, d, pd, pt)
    ensures IndexesBelow(x.m, d, pd + 1) == IndexesBelow(x.m, d, pd) + if TableSlot(d, pd) in x.m.tables then {pd} else {}
  {
    RowIsDone(x, d);
    hide Sound;
    forall s <- x.m.leaves | s.dir == d
      ensures Before(s.page, pd + 1, 0) <==> Before(s.page, pd, pt)
    {
    }
  }

  lemma RoomDecided(x: Memory, d: nat)
    requires Sound(x)
    ensures !Saturated(x, d, IDENTITY_TABLES, 0) && IndexesBelow(x.m, d, IDENTITY_TABLES) == {}
    ensures IndexesBelow(x.m, d, ENTRIES) == TableIndexes(x.m, d)
    ensures (!Saturated(x, d, ENTRIES, 0) && |TableIndexes(x.m, d)| < |FreeOf(x)|) <==> ForkRoom(x, d)
  {
    RowIsDone(x, d);
    TableBounds(x);
    forall s <- x.m.leaves ensures s.page.pd >= IDENTITY_TABLES { LeafFacts(x, s); }
    hide Sound;
    forall s <- x.m.leaves | s.dir == d ensures Before(s.page, ENTRIES, 0) { }
  }

  /** What fork relies on without looking: frames for the directory and every table, and no full count. */
  ghost predicate ForkRoom(x: Memory, d: nat) { Forkable(x, d) && |FreeOf(x)| > |TableIndexes(x.m, d)| }

  /** Looks for a full count among the pages of one table. */
  method RowFull(mem: AddressSpaces, d: nat, pd: nat, before: bool) returns (full: bool)
    requires mem.Valid() && d in mem.m.dirs && IDENTITY_TABLES <= pd < ENTRIES && TableSlot(d, pd) in mem.m.tables
    requires before <==> Saturated(mem.Now(), d, pd, 0)
    ensures full <==> Saturated(mem.Now(), d, pd, ENTRIES)
  {
    hide Sound, Saturated;
    ghost var x := mem.Now();
    full := before;
    Walk(x, d, VPage(pd, 0));
    var table := mem.Word(d, pd).frame;
    for pt := 0 to ENTRIES
      invariant full <==> Saturated(x, d, pd, pt)
    {
      Walk(x, d, VPage(pd, pt));
      FlagBits();
      if Slot(d, VPage(pd, pt)) in x.m.leaves { LeafFacts(x, Slot(d, VPage(pd, pt))); }
      SaturatedStep(x, d, pd, pt);
      var e := mem.Word(table, pt);
      if e.Present() {
        var count := mem.pmm.FrameRefcount(e.frame);
        full := full || count == 255;
      }
    }
  }

  /** One row of the scan: counts the table if there is one, and looks through it. */
  method ScanRow(mem: AddressSpaces, d: nat, pd: nat, needed: nat, full: bool) returns (needed': nat, full': bool)
    requires mem.Valid() && d in mem.m.dirs && IDENTITY_TABLES <= pd < ENTRIES
    requires needed == |IndexesBelow(mem.m, d, pd)| && (full <==> Saturated(mem.Now(), d, pd, 0))
    ensures needed' == |IndexesBelow(mem.m, d, pd + 1)| && (full' <==> Saturated(mem.Now(), d, pd + 1, 0))
  {
    hide Sound, Saturated, IndexesBelow;
    ghost var x := mem.Now();
    Walk(x, d, VPage(pd, 0));
    FlagBits();
    NotBelow(x.m, d, pd);
    if mem.Word(d, pd).Present() {
      full' := RowFull(mem, d, pd, full);
      SaturatedRow(x, d, pd, ENTRIES);
      return needed + 1, full';
    }
    SaturatedRow(x, d, pd, 0);
    return needed, full;
  }

  /** Decides whether fork's assumptions hold. The code has no such check; runs stop where they fail. */
  method HasForkRoom(mem: AddressSpaces, d: nat) returns (room: bool)
    requires mem.Valid() && d in mem.m.dirs
    ensures room <==> ForkRoom(mem.Now(), d)
  {
    hide Sound, Saturated, ForkRoom, IndexesBelow;
    RoomDecided(mem.Now(), d);
    var needed, full := 0, false;
    for pd := IDENTITY_TABLES to ENTRIES
      invariant (full <==> Saturated(mem.Now(), d, pd, 0)) && needed == |IndexesBelow(mem.m, d, pd)|
    {
      needed, full := ScanRow(mem, d, pd, needed, full);
    }
    var free := mem.pmm.FreeFrameCount();
    room := !full && needed < free;
  }

  lemma NotBelow(m: Layout, d: nat, pd: nat)
    ensures pd !in IndexesBelow(m, d, pd)
  {
  }

  // ---------------------------------------------------------------- the process table

  function ViewOf(dirs: map<nat, nat>, image: Image, next: nat): Eager {
    Eager(map p <- dirs :: SpaceOf(image, dirs[p]), next)
  }

  /** Every process has a live directory of its own and an identifier already given out. */
  ghost predicate TableValid(dirs: map<nat, nat>, next: nat, live: set<nat>) {
    && (forall p <- dirs :: p < next && dirs[p] in live)
    && (forall p <- dirs, q <- dirs :: dirs[p] == dirs[q] ==> p == q)
  }

  lemma ViewAfterFork(dirs: map<nat, nat>, image: Image, next: nat, live: set<nat>, p: nat, c: nat)
    requires TableValid(dirs, next, live) && p in dirs && c !in live && forall s <- image :: s.dir != c
    ensures TableValid(dirs[next := c], next + 1, live + {c})
    ensures ViewOf(dirs[next := c], EagerFork(image, dirs[p], c), next + 1) == Next(ViewOf(dirs, image, next), ForkOp(p), Child(next))
  {
    hide SpaceOf, EagerFork, PokeSpace, ProgramSpace;
    SpaceAfterFork(image, dirs[p], c, c);
    forall q <- dirs
      ensures SpaceOf(EagerFork(image, dirs[p], c), dirs[q]) == SpaceOf(image, dirs[q])
    {
      SpaceAfterFork(image, dirs[p], c, dirs[q]);
    }
  }

  lemma ViewAfterStore(dirs: map<nat, nat>, image: Image, next: nat, live: set<nat>, p: nat, virt: nat, b: bv8)
    requires TableValid(dirs, next, live) && p in dirs && SlotOf(dirs[p], virt) in image
    ensures ViewOf(dirs, Poke(image, SlotOf(dirs[p], virt), OffsetOf(virt), b), next) ==
      Next(ViewOf(dirs, image, next), StoreOp(p, virt, b), Stored)
    ensures PageOf(virt) in SpaceOf(image, dirs[p])
  {
    InSpace(image, dirs[p], PageOf(virt));
    hide SpaceOf, Poke, PokeSpace, ProgramSpace, PageOf, OffsetOf, SlotOf;
    var image' := Poke(image, SlotOf(dirs[p], virt), OffsetOf(virt), b);
    var before, after := ViewOf(dirs, image, next), Next(ViewOf(dirs, image, next), StoreOp(p, virt, b), Stored);
    assert after.spaces == before.spaces[p := PokeSpace(before.spaces[p], virt, b)];
    forall q <- dirs
      ensures SpaceOf(image', dirs[q]) == after.spaces[q]
    {
      SpaceAfterPoke(image, dirs[p], virt, b, dirs[q]);
    }
  }

  /** The processes whose page lies in the frame of p's. */
  function Sharers(a: Moment, p: nat, page: VPage): set<nat> {
    set q <- a.dirs | p in a.dirs && SameFrame(a.x.m, Slot(a.dirs[p], page), Slot(a.dirs[q], page))
  }

  lemma PokedSpace(a: Moment, p: nat, virt: nat, b: bv8, q: nat)
    requires Sound(a.x) && p in a.dirs && SlotOf(a.dirs[p], virt) in a.x.m.leaves && q in a.dirs
    ensures a.x.image.Keys == a.x.m.leaves.Keys && forall u <- a.x.image :: |a.x.image[u]| == FRAME_SIZE
    ensures SpaceOf(KernelPoked(a.x, SlotOf(a.dirs[p], virt), OffsetOf(virt), b), a.dirs[q]) ==
      if q in Sharers(a, p, PageOf(virt)) then PokeSpace(SpaceOf(a.x.image, a.dirs[q]), virt, b) else SpaceOf(a.x.image, a.dirs[q])
  {
    hide Sound, SpaceOf, PokeSpace, KernelPoked, PageOf;
    ImageShape(a.x);
    SpaceAfterKernelPoke(a.x, SlotOf(a.dirs[p], virt), virt, b, a.dirs[q]);
  }

  /** All who share the page read the same there. */
  lemma SharersRead(a: Moment, p: nat, page: VPage, q: nat)
    requires Sound(a.x) && q in Sharers(a, p, page)
    ensures p in a.dirs && page in SpaceOf(a.x.image, a.dirs[p]) && page in SpaceOf(a.x.image, a.dirs[q])
    ensures SpaceOf(a.x.image, a.dirs[q])[page] == SpaceOf(a.x.image, a.dirs[p])[page]
  {
    SameFrameSameBytes(a.x, Slot(a.dirs[p], page));
    hide Sound, SpaceOf;
    InSpace(a.x.image, a.dirs[p], page);
    InSpace(a.x.image, a.dirs[q], page);
  }

  lemma PokeAllowed(a: Moment, p: nat, virt: nat, b: bv8)
    requires Sound(a.x) && p in a.dirs && SlotOf(a.dirs[p], virt) in a.x.m.leaves
    ensures Allowed(a.View(), PokeOp(p, virt, b), Poked(Sharers(a, p, PageOf(virt))))
  {
    ImageShape(a.x);
    hide Sound, SpaceOf, PageOf;
    InSpace(a.x.image, a.dirs[p], PageOf(virt));
    assert p in Sharers(a, p, PageOf(virt));
    forall q <- Sharers(a, p, PageOf(virt))
      ensures q in a.dirs && PageOf(virt) in SpaceOf(a.x.image, a.dirs[q])
      ensures SpaceOf(a.x.image, a.dirs[q])[PageOf(virt)] == SpaceOf(a.x.image, a.dirs[p])[PageOf(virt)]
    {
      SharersRead(a, p, PageOf(virt), q);
    }
    hide Sharers;
  }

  lemma ViewAfterPoke(a: Moment, p: nat, virt: nat, b: bv8)
    requires Sound(a.x) && p in a.dirs && SlotOf(a.dirs[p], virt) in a.x.m.leaves
    ensures a.x.image.Keys == a.x.m.leaves.Keys && forall u <- a.x.image :: |a.x.image[u]| == FRAME_SIZE
    ensures ViewOf(a.dirs, KernelPoked(a.x, SlotOf(a.dirs[p], virt), OffsetOf(virt), b), a.next) ==
      Next(a.View(), PokeOp(p, virt, b), Poked(Sharers(a, p, PageOf(virt))))
  {
    assert OffsetOf(virt) < FRAME_SIZE;
    hide Sound, SpaceOf, PokeSpace, OffsetOf, PageOf, KernelPoked, Sharers, Next;
    ImageShape(a.x);
    var image', sharers := KernelPoked(a.x, SlotOf(a.dirs[p], virt), OffsetOf(virt), b), Sharers(a, p, PageOf(virt));
    var after := Next(a.View(), PokeOp(p, virt, b), Poked(sharers));
    forall q <- a.dirs
      ensures q in after.spaces && SpaceOf(image', a.dirs[q]) == after.spaces[q]
    {
      PokedSpace(a, p, virt, b, q);
      NextPoked(a.View(), p, virt, b, sharers, q);
    }
    NextPoked(a.View(), p, virt, b, sharers, p);
    hide *;
    ViewIs(a.dirs, image', a.next, after);
  }

  lemma ViewIs(dirs: map<nat, nat>, image: Image, next: nat, e: Eager)
    requires e.next == next && e.spaces.Keys == dirs.Keys && forall q <- dirs :: e.spaces[q] == SpaceOf(image, dirs[q])
    ensures ViewOf(dirs, image, next) == e
  {
    hide SpaceOf;
  }

  lemma NextPoked(e: Eager, p: nat, virt: nat, b: bv8, sharers: set<nat>, q: nat)
    ensures var e' := Next(e, PokeOp(p, virt, b), Poked(sharers));
      && e'.next == e.next && e'.spaces.Keys == e.spaces.Keys
      && (q in e.spaces ==> e'.spaces[q] == if q in sharers then PokeSpace(e.spaces[q], virt, b) else e.spaces[q])
  {
    hide PokeSpace;
  }

  lemma ViewAfterReap(dirs: map<nat, nat>, image: Image, next: nat, live: set<nat>, p: nat)
    requires TableValid(dirs, next, live) && p in dirs
    ensures TableValid(dirs - {p}, next, live - {dirs[p]})
    ensures ViewOf(dirs - {p}, EagerDrop(image, dirs[p]), next) == Next(ViewOf(dirs, image, next), ReapOp(p), Reaped)
  {
    hide SpaceOf, EagerDrop, PokeSpace, ProgramSpace;
    forall q <- dirs | q != p
      ensures SpaceOf(EagerDrop(image, dirs[p]), dirs[q]) == SpaceOf(image, dirs[q])
    {
      SpaceAfterDrop(image, dirs[p], dirs[q]);
    }
  }

  // ---------------------------------------------------------------- building a program

  datatype BuildResult = Built(dir: nat, entry: nat) | NotBuilt(dir: nat, bad: bool) | Lost

  ghost predicate NewSpace(x0: Memory, x: Memory, dir: nat) {
    && dir !in x0.m.dirs && x.m.dirs == x0.m.dirs + {dir}
    && OtherTables(x.m, dir) == x0.m.tables && OtherLeaves(x.m, dir) == x0.m.leaves
  }

  lemma NewDirectorySpace(x0: Memory, dir: nat)
    requires Sound(x0) && dir < MAX_FRAMES && dir !in x0.m.dirs
    ensures NewSpace(x0, DirStep(x0, dir), dir) && Private(DirStep(x0, dir).m, dir)
    ensures TableIndexes(DirStep(x0, dir).m, dir) == {}
    ensures forall s <- x0.image :: s.dir != dir
  {
    NothingInNewDirectory(x0, dir);
    ImageKeys(x0);
    hide Sound;
  }

  lemma StillNewSpace(x0: Memory, x: Memory, y: Memory, dir: nat)
    requires NewSpace(x0, x, dir) && SameElsewhere(x.m, y.m, dir)
    ensures NewSpace(x0, y, dir)
  {
  }

  /** The pages of the file and the stack page are distinct user pages. */
  ghost predicate Clean(elf: seq<bv8>) {
    PagesDistinct(PagesToLoad(elf, SegmentCount(elf)) + [LoadPage(USER_STACK_VADDR, [])])
  }

  /** The frames a new program takes: its directory, the pages and tables of an ELF file, and its stack page with the
      table that may need. */
  function FramesToBuild(elf: seq<bv8>): nat {
    1 + if IsElf32(elf) then FramesToLoad(PagesToLoad(elf, SegmentCount(elf)) + [LoadPage(USER_STACK_VADDR, [])], {}) else 0
  }

  /** The frames taken before the one for the stack page: the directory's, and those of the file's pages and tables. */
  function FramesBeforeStack(elf: seq<bv8>): nat { 1 + FramesToLoad(PagesToLoad(elf, SegmentCount(elf)), {}) }

  lemma FramesForStack(elf: seq<bv8>)
    requires IsElf32(elf)
    ensures var pages := PagesToLoad(elf, SegmentCount(elf));
      FramesToBuild(elf) == FramesToLoad(pages, {}) + 2 + |UserTable(USER_STACK_VADDR) - TablesOf(pages)|
    ensures FramesBeforeStack(elf) == 1 + FramesToLoad(PagesToLoad(elf, SegmentCount(elf)), {})
  {
    hide PagesToLoad, SegmentCount, IsElf32, FramesToLoad, UserTable;
    var pages := PagesToLoad(elf, SegmentCount(elf));
    FramesForOneMore(pages, {}, LoadPage(USER_STACK_VADDR, []));
    assert {} + TablesOf(pages) == TablesOf(pages);
  }

  /** A program is built without leaking a frame exactly when its file is clean. */
  lemma BuiltLeaks(image: Image, dir: nat, elf: seq<bv8>)
    requires forall s <- image :: s.dir != dir
    ensures var pages := PagesToLoad(elf, SegmentCount(elf));
      NoLeaks(image, dir, pages) && !Leaks(ImageWith(image, dir, pages), SlotOf(dir, USER_STACK_VADDR)) <==> Clean(elf)
  {
    hide PagesDistinct, PagesToLoad, SegmentCount, Leaks, ImageWith;
    var pages := PagesToLoad(elf, SegmentCount(elf));
    var all := pages + [LoadPage(USER_STACK_VADDR, [])];
    assert all[..|all| - 1] == pages;
    LeakFree(image, dir, all);
  }

  lemma AtLeastDirectory(elf: seq<bv8>)
    ensures FramesToBuild(elf) >= 1 && (!IsElf32(elf) ==> FramesToBuild(elf) == 1)
  {
    hide IsElf32, FramesToLoad;
  }

  lemma HeldTwice(before: Tally, between: Tally, after: Tally)
    requires HeldGrows(before, between) && HeldGrows(between, after)
    ensures after == before <==> between == before && after == between
  {
    if after == before {
      forall f: nat | f < MAX_FRAMES ensures between[f] == before[f] { }
      assert between == before;
    }
  }

  /** A directory for a new program, with nothing in it. */
  method NewDirectory(mem: AddressSpaces) returns (dir: nat)
    requires mem.Valid() && mem.pmm.Free() != {}
    modifies mem, mem.ram, mem.pmm, mem.pmm.frameBitmap, mem.pmm.frameRefcount
    ensures mem.Valid() && NewSpace(old(mem.Now()), mem.Now(), dir) && TableIndexes(mem.m, dir) == {} && dir in mem.m.dirs
    ensures mem.image == old(mem.image) && mem.held == old(mem.held) && forall s <- mem.image :: s.dir != dir
    ensures |mem.pmm.Free()| == |old(mem.pmm.Free())| - 1 && HandedOut(old(mem.Now()), mem.Now())
    ensures old(Tidy(mem.Now())) ==> Settled(mem.Now(), dir)
  {
    hide Sound, NewSpace, Tidy, Private, TableIndexes, HandedOut;
    ghost var x0 := mem.Now();
    dir := mem.CloneKernelDirectory();
    NewDirectorySpace(x0, dir);
    LowestHandedOut(x0, mem.Now(), dir);
    if Tidy(x0) { DirStepTidy(x0, dir); }
  }

  /** A space with all of a file's segments in it. */
  ghost predicate FileLoaded(x0: Memory, x: Memory, dir: nat, elf: seq<bv8>) {
    && NewSpace(x0, x, dir) && HandedOut(x0, x) && (forall s <- x0.image :: s.dir != dir)
    && x.image == ImageWith(x0.image, dir, PagesToLoad(elf, SegmentCount(elf)))
    && HeldGrows(x0.held, x.held) && (x.held == x0.held <==> NoLeaks(x0.image, dir, PagesToLoad(elf, SegmentCount(elf))))
    && |FreeOf(x)| + FramesBeforeStack(elf) == |FreeOf(x0)|
    && TableIndexes(x.m, dir) == TablesOf(PagesToLoad(elf, SegmentCount(elf))) && (Tidy(x0) ==> Settled(x, dir))
  }

  /** The first part of building a program: its directory, and the file's segments. */
  method LoadFile(mem: AddressSpaces, elf: seq<bv8>) returns (dir: nat, r: LoadResult, ghost done: seq<LoadPage>)
    requires mem.Valid() && mem.pmm.Free() != {}
    modifies mem, mem.ram, mem.pmm, mem.pmm.frameBitmap, mem.pmm.frameRefcount
    ensures mem.Valid() && (r.BadFile? <==> !IsElf32(elf)) && forall s <- old(mem.image) :: s.dir != dir
    ensures !r.NoTableMemory? ==> NewSpace(old(mem.Now()), mem.Now(), dir)
    ensures r.Success? ==> r.entry == EntryPoint(elf) && FileLoaded(old(mem.Now()), mem.Now(), dir, elf)
    ensures done <= PagesToLoad(elf, SegmentCount(elf)) && mem.image == ImageWith(old(mem.image), dir, done)
    ensures !r.NoTableMemory? ==> (mem.held == old(mem.held) <==> NoLeaks(old(mem.image), dir, done))
    ensures r.BadFile? ==> mem.held == old(mem.held) && |mem.pmm.Free()| == |old(mem.pmm.Free())| - 1
    ensures r.NoMemory? ==> mem.pmm.Free() == {}
    ensures r.NoMemory? || r.NoTableMemory? ==> FramesToBuild(elf) > |old(mem.pmm.Free())|
    ensures !r.NoTableMemory? && old(Tidy(mem.Now())) ==> Settled(mem.Now(), dir)
  {
    hide Sound, NewSpace, ImageWith, NoLeaks, PagesToLoad, SegmentCount, SameElsewhere, HeldGrows, Tidy, Settled;
    hide IsElf32, FramesToBuild, FramesToLoad, TablesOf, UserTable, FreeFrames, HandedOut;
    ghost var x0 := mem.Now();
    if IsElf32(elf) { FramesForStack(elf); }
    dir := NewDirectory(mem);
    ghost var x1 := mem.Now();
    r, done := ElfLoad(mem, elf, dir);
    if r.NoTableMemory? { return; }
    StillNewSpace(x0, x1, mem.Now(), dir);
    HandedOutOn(x0, x1, mem.Now());
  }

  /** The stack page: a fresh frame, not cleared, one page below the initial stack pointer. */
  method MapStack(mem: AddressSpaces, dir: nat) returns (ok: bool, stack: seq<bv8>, ghost f: nat)
    requires mem.Valid() && dir in mem.m.dirs
    modifies mem, mem.ram, mem.pmm, mem.pmm.frameBitmap, mem.pmm.frameRefcount
    ensures ok ==> mem.Valid() && |stack| == FRAME_SIZE && SameElsewhere(old(mem.m), mem.m, dir)
    ensures ok ==> mem.image == WithPage(old(mem.image), dir, LoadPage(USER_STACK_VADDR, stack))
    ensures ok ==> HeldGrows(old(mem.held), mem.held)
    ensures ok ==> (mem.held == old(mem.held) <==> !Leaks(old(mem.image), SlotOf(dir, USER_STACK_VADDR)))
    ensures ok && old(Settled(mem.Now(), dir)) ==> Settled(mem.Now(), dir)
    ensures ok ==> f in old(mem.pmm.Free()) && (forall g <- old(mem.pmm.Free()) :: f <= g) && stack == BytesAt(old(mem.ram[..]), f)
    ensures ok ==> SlotOf(dir, USER_STACK_VADDR) in mem.m.leaves && mem.m.leaves[SlotOf(dir, USER_STACK_VADDR)] == Pte(f, OWNED)
    ensures ok <==> 1 + |UserTable(USER_STACK_VADDR) - TableIndexes(old(mem.m), dir)| <= |old(mem.pmm.Free())|
  {
    hide Sound, SameElsewhere, Settled, HandedOut;
    ghost var x := mem.Now();
    NeedsUserTable(x.m, dir, USER_STACK_VADDR);
    var n := AllocHeld(mem);
    f := n;
    if n == 0 { return false, [], f; }
    var frame := mem.ram[n];
    LoadedSound(x, n, frame);
    assert mem.Now() == Loaded(x, n, frame);
    var room := RoomForPage(mem, dir, USER_STACK_VADDR);
    if !room { return false, [], f; }
    MapLoaded(mem, x, n, frame, dir, USER_STACK_VADDR);
    return true, Contents(frame), f;
  }

  /** The last part of building a program. */
  method AddStack(mem: AddressSpaces, elf: seq<bv8>, dir: nat, ghost x0: Memory) returns (ok: bool, stack: seq<bv8>, ghost f: nat)
    requires mem.Valid() && IsElf32(elf) && FileLoaded(x0, mem.Now(), dir, elf)
    modifies mem, mem.ram, mem.pmm, mem.pmm.frameBitmap, mem.pmm.frameRefcount
    ensures ok ==> mem.Valid() && NewSpace(x0, mem.Now(), dir) && |stack| == FRAME_SIZE
    ensures ok ==> mem.image == WithPage(ImageWith(x0.image, dir, PagesToLoad(elf, SegmentCount(elf))), dir, LoadPage(USER_STACK_VADDR, stack))
    ensures ok ==> (mem.held == x0.held <==> Clean(elf))
    ensures ok && Tidy(x0) ==> Settled(mem.Now(), dir)
    ensures ok <==> FramesToBuild(elf) <= |FreeOf(x0)|
    ensures ok ==> NthFree(x0, FramesBeforeStack(elf), f) && stack == BytesAt(x0.ram, f)
    ensures ok ==> SlotOf(dir, USER_STACK_VADDR) in mem.m.leaves && mem.m.leaves[SlotOf(dir, USER_STACK_VADDR)] == Pte(f, OWNED)
  {
    assert dir in mem.m.dirs;
    hide Sound, NewSpace, ImageWith, WithPage, NoLeaks, PagesToLoad, SegmentCount, SameElsewhere, Clean, Leaks, HeldGrows, Tidy, Settled;
    hide IsElf32, FramesToBuild, FramesToLoad, TablesOf, UserTable, TableIndexes, FreeFrames, HandedOut, NthFree, FramesBeforeStack;
    ghost var x := mem.Now();
    FramesForStack(elf);
    ok, stack, f := MapStack(mem, dir);
    if !ok { return; }
    NextIsNth(x0, x, f);
    StillNewSpace(x0, x, mem.Now(), dir);
    BuiltLeaks(x0.image, dir, elf);
    HeldTwice(x0.held, x.held, mem.held);
  }

  /** The common part of exec and of the shell's run command: a new directory, the file's segments,
      and a stack page. Lost is where an allocation the code does not check would fail. */
  method BuildProgram(mem: AddressSpaces, elf: seq<bv8>)
      returns (r: BuildResult, stack: seq<bv8>, ghost done: seq<LoadPage>, ghost f: nat)
    requires mem.Valid()
    modifies mem, mem.ram, mem.pmm, mem.pmm.frameBitmap, mem.pmm.frameRefcount
    ensures !r.Lost? ==> mem.Valid() && NewSpace(old(mem.Now()), mem.Now(), r.dir)
    ensures r.Built? ==> IsElf32(elf) && r.entry == EntryPoint(elf) && |stack| == FRAME_SIZE
    ensures r.Built? ==> mem.image == WithPage(ImageWith(old(mem.image), r.dir, PagesToLoad(elf, SegmentCount(elf))), r.dir,
                                               LoadPage(USER_STACK_VADDR, stack))
    ensures r.NotBuilt? ==> (r.bad <==> !IsElf32(elf)) && mem.image == ImageWith(old(mem.image), r.dir, done)
    ensures r.NotBuilt? ==> done <= PagesToLoad(elf, SegmentCount(elf)) && (r.bad ==> mem.held == old(mem.held))
    ensures r.NotBuilt? ==> (mem.held == old(mem.held) <==> NoLeaks(old(mem.image), r.dir, done))
    ensures r.NotBuilt? || r.Built? ==> forall s <- old(mem.image) :: s.dir != r.dir
    ensures r.Built? ==> (mem.held == old(mem.held) <==> Clean(elf))
    ensures !r.Lost? && old(Tidy(mem.Now())) ==> Settled(mem.Now(), r.dir)
    ensures r.Built? || (r.NotBuilt? && r.bad) <==> FramesToBuild(elf) <= |old(mem.pmm.Free())|
    ensures r.Built? ==> NthFree(old(mem.Now()), FramesBeforeStack(elf), f) && stack == BytesAt(old(mem.ram[..]), f)
    ensures r.Built? ==> SlotOf(r.dir, USER_STACK_VADDR) in mem.m.leaves && mem.m.leaves[SlotOf(r.dir, USER_STACK_VADDR)] == Pte(f, OWNED)
    ensures r.NotBuilt? ==> old(mem.pmm.Free()) != {}
    ensures r.NotBuilt? ==> if r.bad then |mem.pmm.Free()| == |old(mem.pmm.Free())| - 1 else mem.pmm.Free() == {}
  {
    hide Sound, NewSpace, ImageWith, WithPage, NoLeaks, PagesToLoad, SegmentCount, SameElsewhere, Clean, Leaks, HeldGrows, Tidy, Settled;
    hide IsElf32, FramesToBuild, FramesToLoad, TablesOf, UserTable, TableIndexes, FreeFrames, FileLoaded;
    hide HandedOut, NthFree, FramesBeforeStack, BytesAt, SlotOf;
    ghost var x0 := mem.Now();
    AtLeastDirectory(elf);
    stack, done, f := [], [], 0;
    var free := mem.pmm.FreeFrameCount();
    if free == 0 { return Lost, [], [], f; }
    var dir, status;
    dir, status, done := LoadFile(mem, elf);
    if status.NoTableMemory? { return Lost, [], [], f; }
    if !status.Success? { return NotBuilt(dir, status.BadFile?), [], done, f; }
    var ok;
    ok, stack, f := AddStack(mem, elf, dir, x0);
    return if ok then Built(dir, status.entry) else Lost, stack, done, f;
  }

  lemma ImageUndone(image: Image, dir: nat, done: seq<LoadPage>)
    requires forall s <- image :: s.dir != dir
    ensures EagerDrop(ImageWith(image, dir, done), dir) == image
  {
    forall s: Slot
      ensures s in EagerDrop(ImageWith(image, dir, done), dir) <==> s in image
      ensures s in image ==> EagerDrop(ImageWith(image, dir, done), dir)[s] == image[s]
    {
      if s.dir != dir { OthersKept(image, dir, done, s); }
    }
  }

  /** A build that failed, undone: layout, image and counts are what they were, if nothing leaked. */
  lemma BuildUndone(x0: Memory, x: Memory, y: Memory, dir: nat, done: seq<LoadPage>)
    requires Sound(x0) && Sound(y) && NewSpace(x0, x, dir) && x0.reserved == y.reserved
    requires (forall s <- x0.image :: s.dir != dir) && x.image == ImageWith(x0.image, dir, done)
    requires y.m.dirs == x.m.dirs - {dir} && y.held == x.held
    requires y.m.tables == OtherTables(x.m, dir) && y.m.leaves == OtherLeaves(x.m, dir)
    requires y.image == EagerDrop(x.image, dir)
    ensures y.image == x0.image && y.m.dirs == x0.m.dirs && y.m.leaves == x0.m.leaves && y.m.tables == x0.m.tables
    ensures x.held == x0.held ==> FreeOf(y) == FreeOf(x0)
  {
    hide Sound, ImageWith;
    ImageUndone(x0.image, dir, done);
    if x.held == x0.held { SameLayoutSameFree(x0, y); }
  }

  /** A failed build is given back. */
  method Unbuild(mem: AddressSpaces, dir: nat, ghost x0: Memory, ghost done: seq<LoadPage>)
    requires mem.Valid() && Tidy(mem.Now()) && dir in mem.m.dirs
    requires Sound(x0) && NewSpace(x0, mem.Now(), dir) && x0.reserved == mem.pmm.reserved
    requires (forall s <- x0.image :: s.dir != dir) && mem.image == ImageWith(x0.image, dir, done)
    modifies mem, mem.ram, mem.pmm, mem.pmm.frameBitmap, mem.pmm.frameRefcount
    ensures mem.Valid() && Tidy(mem.Now()) && mem.held == old(mem.held)
    ensures mem.image == x0.image && mem.m.dirs == x0.m.dirs && mem.m.leaves == x0.m.leaves && mem.m.tables == x0.m.tables
    ensures mem.held == x0.held ==> mem.pmm.Free() == FreeOf(x0)
  {
    hide Sound, Tidy, NewSpace, ImageWith, EagerDrop;
    ghost var x := mem.Now();
    ReleaseAddressSpace(mem, dir);
    BuildUndone(x0, x, mem.Now(), dir, done);
  }

  lemma ViewAfterExec(dirs: map<nat, nat>, image: Image, next: nat, live: set<nat>, p: nat, dir: nat, elf: seq<bv8>, entry: nat, stack: seq<bv8>)
    requires TableValid(dirs, next, live) && p in dirs && dir !in live && forall s <- image :: s.dir != dir
    ensures var image' := WithPage(ImageWith(image, dir, PagesToLoad(elf, SegmentCount(elf))), dir, LoadPage(USER_STACK_VADDR, stack));
      && TableValid(dirs[p := dir], next, live + {dir} - {dirs[p]})
      && ViewOf(dirs[p := dir], EagerDrop(image', dirs[p]), next) == Next(ViewOf(dirs, image, next), ExecOp(p, elf), Started(p, entry, stack))
  {
    hide SpaceOf, EagerDrop, ImageWith, WithPage, PokeSpace, PagesToLoad, SegmentCount, LoadSpace;
    var pages := PagesToLoad(elf, SegmentCount(elf));
    var image' := WithPage(ImageWith(image, dir, pages), dir, LoadPage(USER_STACK_VADDR, stack));
    NewProgramSpace(image, dir, elf, stack);
    SpaceAfterDrop(image', dirs[p], dir);
    forall q <- dirs | q != p
      ensures SpaceOf(EagerDrop(image', dirs[p]), dirs[q]) == SpaceOf(image, dirs[q])
    {
      SpaceAfterDrop(image', dirs[p], dirs[q]);
      OtherProgramSpace(image, dir, elf, stack, dirs[q]);
    }
  }

  lemma NewProgramSpace(image: Image, dir: nat, elf: seq<bv8>, stack: seq<bv8>)
    requires forall s <- image :: s.dir != dir
    ensures SpaceOf(WithPage(ImageWith(image, dir, PagesToLoad(elf, SegmentCount(elf))), dir, LoadPage(USER_STACK_VADDR, stack)), dir)
      == ProgramSpace(elf, stack)
  {
    hide ImageWith, WithPage, PagesToLoad, SegmentCount;
    var pages := PagesToLoad(elf, SegmentCount(elf));
    SpaceAfterPage(ImageWith(image, dir, pages), dir, LoadPage(USER_STACK_VADDR, stack), dir);
    SpaceAfterLoad(image, dir, pages, dir);
    assert SpaceOf(image, dir) == map[];
  }

  lemma OtherProgramSpace(image: Image, dir: nat, elf: seq<bv8>, stack: seq<bv8>, d: nat)
    requires d != dir
    ensures SpaceOf(WithPage(ImageWith(image, dir, PagesToLoad(elf, SegmentCount(elf))), dir, LoadPage(USER_STACK_VADDR, stack)), d)
      == SpaceOf(image, d)
  {
    hide ImageWith, WithPage, PagesToLoad, SegmentCount, SpaceOf;
    var pages := PagesToLoad(elf, SegmentCount(elf));
    SpaceAfterPage(ImageWith(image, dir, pages), dir, LoadPage(USER_STACK_VADDR, stack), d);
    SpaceAfterLoad(image, dir, pages, d);
  }

  lemma ViewAfterSpawn(dirs: map<nat, nat>, image: Image, next: nat, live: set<nat>, dir: nat, elf: seq<bv8>, entry: nat, stack: seq<bv8>)
    requires TableValid(dirs, next, live) && dir !in live && forall s <- image :: s.dir != dir
    ensures var image' := WithPage(ImageWith(image, dir, PagesToLoad(elf, SegmentCount(elf))), dir, LoadPage(USER_STACK_VADDR, stack));
      && TableValid(dirs[next := dir], next + 1, live + {dir})
      && ViewOf(dirs[next := dir], image', next + 1) == Next(ViewOf(dirs, image, next), SpawnOp(elf), Started(next, entry, stack))
  {
    hide SpaceOf, ImageWith, WithPage, PokeSpace, PagesToLoad, SegmentCount, LoadSpace;
    NewProgramSpace(image, dir, elf, stack);
    forall q <- dirs { OtherProgramSpace(image, dir, elf, stack, dirs[q]); }
  }

  lemma ViewAfterFailedSpawn(dirs: map<nat, nat>, image: Image, next: nat, live: set<nat>, dir: nat, done: seq<LoadPage>)
    requires TableValid(dirs, next, live) && dir !in live
    ensures TableValid(dirs, next, live + {dir}) && ViewOf(dirs, ImageWith(image, dir, done), next) == ViewOf(dirs, image, next)
  {
    hide SpaceOf, ImageWith;
    forall q <- dirs { SpaceAfterLoad(image, dir, done, dirs[q]); }
  }

  // ---------------------------------------------------------------- the system calls

  predicate ValidOp(op: Op) {
    match op
    case LoadOp(_, virt) => virt < 0x1_0000_0000
    case StoreOp(_, virt, _) => virt < 0x1_0000_0000
    case PokeOp(_, virt, _) => IDENTITY_TABLES <= PageOf(virt).pd && virt < 0x1_0000_0000
    case HeapOp(heapEnd) => PageOf(heapEnd).pd < IDENTITY_TABLES
    case _ => true
  }

  /** Too few frames, or too full a reference count, for an allocation that the code does not check, for a copy that the
      fault handler cannot make, or for a file to be loaded. */
  ghost predicate Scarce(x: Memory, dirs: map<nat, nat>, op: Op) {
    match op
    case ForkOp(p) => p in dirs && !ForkRoom(x, dirs[p])
    case StoreOp(p, virt, _) => p in dirs && SlotOf(dirs[p], virt) in x.m.leaves && !Storable(x, SlotOf(dirs[p], virt))
    case ExecOp(p, elf) => p in dirs && |FreeOf(x)| < FramesToBuild(elf)
    case SpawnOp(elf) => |FreeOf(x)| < FramesToBuild(elf)
    case HeapOp(_) => FreeOf(x) == {}
    case _ => false
  }

  /** A program whose file the loader reads past the end of: what it then makes depends on what lies there. */
  predicate Overreads(op: Op) { (op.ExecOp? || op.SpawnOp?) && !Contained(op.elf) }

  /** The operations that are not followed, because the code takes for granted what is not so. */
  ghost predicate Unfollowed(x: Memory, dirs: map<nat, nat>, op: Op) { Scarce(x, dirs, op) || Overreads(op) }

  /** One moment of a run: memory, the page directory of each process, and the next identifier. */
  datatype Moment = Moment(x: Memory, dirs: map<nat, nat>, next: nat) {
    function View(): Eager { ViewOf(dirs, x.image, next) }
  }

  /** The live directories that belong to no process: what failed spawns have left behind. */
  function Ownerless(a: Moment): set<nat> { a.x.m.dirs - a.dirs.Values }

  ghost predicate OwnerlessPrivate(a: Moment) { forall d <- Ownerless(a) :: Private(a.x.m, d) }

  /** What holds at every moment between operations; the reference counts are then exact. */
  ghost predicate AtRest(a: Moment) {
    && Sound(a.x) && Tidy(a.x) && TableValid(a.dirs, a.next, a.x.m.dirs) && OwnerlessPrivate(a)
    && a.x.reserved <= FramesBelow(MAX_FRAMES)
  }

  /** A spawn that fails, for whatever reason, after its directory was made. */
  predicate Abandons(op: Op, ev: Event) { op.SpawnOp? && !ev.Started? }

  /** An operation that leaves the number of outside references to every frame alone. */
  ghost predicate LeakFreeOp(op: Op) {
    match op
    case ExecOp(_, elf) => Clean(elf)
    case SpawnOp(elf) => Clean(elf)
    case HeapOp(_) => false
    case _ => true
  }

  ghost predicate KeepsOwnerless(a: Moment, b: Moment) { forall d <- Ownerless(a) :: KeptAt(a.x.m, b.x.m, d) }

  /** What is left behind stays as it is. A failed spawn leaves one more directory: with nothing in it, at the price of one
      frame, if the file was refused; and with every last free frame, if the frames did not suffice. */
  ghost predicate Leftovers(a: Moment, op: Op, ev: Event, b: Moment) {
    && KeepsOwnerless(a, b)
    && if Abandons(op, ev) then
         && (exists d :: d !in a.x.m.dirs && Ownerless(b) == Ownerless(a) + {d} && Private(b.x.m, d))
         && FreeOf(a.x) != {} && if ev.Refused? then |FreeOf(b.x)| == |FreeOf(a.x)| - 1 else FreeOf(b.x) == {}
       else Ownerless(b) == Ownerless(a)
  }

  /** A new program's stack page holds what the frame it lies in held: of the frames that were free, the one after those
      for the directory and the file. */
  ghost predicate StackLeft(x: Memory, elf: seq<bv8>, stack: seq<bv8>) {
    exists f :: NthFree(x, FramesBeforeStack(elf), f) && stack == BytesAt(x.ram, f)
  }

  ghost predicate HeapHeld(x: Memory, y: Memory) { exists n <- FreeOf(x) :: n < MAX_FRAMES && y.held == Hold(x.held, n) }

  // ---------------------------------------------------------------- the bytes of a new program

  lemma {:induction false} LoadedFrom(pages: seq<LoadPage>, q: VPage) returns (i: nat)
    requires q in LoadSpace(map[], pages)
    ensures i < |pages| && LoadSpace(map[], pages)[q] == pages[i].bytes
  {
    var last := pages[|pages| - 1];
    if PageOf(last.virt).pd >= IDENTITY_TABLES && PageOf(last.virt) == q {
      i := |pages| - 1;
    } else {
      i := LoadedFrom(pages[..|pages| - 1], q);
    }
  }

  /** Every byte of a new program's memory is a zero or a byte of its file, except on the stack page. */
  lemma ProgramBytes(elf: seq<bv8>, stack: seq<bv8>, q: VPage, o: nat)
    requires Contained(elf) && IsElf32(elf)
    requires q in ProgramSpace(elf, stack) && |stack| == FRAME_SIZE && o < FRAME_SIZE
    ensures |ProgramSpace(elf, stack)[q]| == FRAME_SIZE
    ensures q == PageOf(USER_STACK_VADDR) ==> ProgramSpace(elf, stack)[q][o] == stack[o]
    ensures q != PageOf(USER_STACK_VADDR) ==>
      ProgramSpace(elf, stack)[q][o] == 0 || exists i :: 0 <= i < |elf| && ProgramSpace(elf, stack)[q][o] == elf[i]
  {
    ElfIsInside(elf);
    hide PagesToLoad, SegmentCount, LoadSpace, PageOf, IsElf32, Contained, SegmentInside;
    if q != PageOf(USER_STACK_VADDR) {
      var i := LoadedFrom(PagesToLoad(elf, SegmentCount(elf)), q);
      PageFromFile(elf, SegmentCount(elf), i, o);
    }
  }

  lemma StaysPrivate(a: Moment, op: Op, ev: Event, b: Moment)
    requires OwnerlessPrivate(a) && Leftovers(a, op, ev, b)
    ensures OwnerlessPrivate(b)
  {
    hide FreeOf;
    forall d <- Ownerless(b) | d in Ownerless(a)
      ensures Private(b.x.m, d)
    {
      assert KeptAt(a.x.m, b.x.m, d) && Private(a.x.m, d);
      forall s <- b.x.m.leaves | s.dir == d ensures b.x.m.leaves[s].flags == OWNED {
        assert s in LeavesAt(b.x.m, d) && s in LeavesAt(a.x.m, d);
      }
    }
  }

  lemma ForkKeeps(a: Moment, b: Moment, p: nat, c: nat)
    requires p in a.dirs && ForkedLayout(a.x.m, b.x.m, a.dirs[p], c) && c !in a.x.m.dirs
    ensures KeepsOwnerless(a, b)
  {
    forall d <- Ownerless(a)
      ensures KeptAt(a.x.m, b.x.m, d)
    {
      assert d != c && d != a.dirs[p];
    }
  }

  lemma StoreKeeps(a: Moment, b: Moment, dir: nat)
    requires dir in a.dirs.Values && forall d: nat :: d != dir ==> KeptAt(a.x.m, b.x.m, d)
    ensures KeepsOwnerless(a, b)
  {
    hide KeptAt;
  }

  lemma LayoutKeeps(a: Moment, b: Moment)
    requires a.x.m.leaves == b.x.m.leaves && a.x.m.tables == b.x.m.tables
    ensures KeepsOwnerless(a, b)
  {
  }

  lemma ReleaseKeeps(m: Layout, m': Layout, gone: nat, d: nat)
    requires d != gone && m'.leaves == (map s <- m.leaves | s.dir != gone :: m.leaves[s])
    requires m'.tables == (map k <- m.tables | k.dir != gone :: m.tables[k])
    ensures KeptAt(m, m', d)
  {
  }

  lemma BuildKeeps(x0: Memory, x: Memory, dir: nat, d: nat)
    requires NewSpace(x0, x, dir) && d != dir
    ensures KeptAt(x0.m, x.m, d)
  {
    forall s: Slot | s.dir != dir ensures s in x.m.leaves <==> s in x0.m.leaves { assert s in OtherLeaves(x.m, dir) <==> s in x.m.leaves; }
    forall s <- x.m.leaves | s.dir != dir ensures x.m.leaves[s] == x0.m.leaves[s] { assert OtherLeaves(x.m, dir)[s] == x.m.leaves[s]; }
    forall k: TableSlot | k.dir != dir ensures k in x.m.tables <==> k in x0.m.tables { assert k in OtherTables(x.m, dir) <==> k in x.m.tables; }
    forall k <- x.m.tables | k.dir != dir ensures x.m.tables[k] == x0.m.tables[k] { assert OtherTables(x.m, dir)[k] == x.m.tables[k]; }
  }

  lemma SpawnKeeps(a: Moment, b: Moment, dir: nat)
    requires NewSpace(a.x, b.x, dir)
    ensures KeepsOwnerless(a, b)
  {
    forall d <- Ownerless(a) ensures KeptAt(a.x.m, b.x.m, d) { BuildKeeps(a.x, b.x, dir, d); }
  }

  lemma ExecKeeps(a: Moment, x: Memory, b: Moment, p: nat, dir: nat)
    requires NewSpace(a.x, x, dir) && p in a.dirs
    requires b.x.m.leaves == (map s <- x.m.leaves | s.dir != a.dirs[p] :: x.m.leaves[s])
    requires b.x.m.tables == (map k <- x.m.tables | k.dir != a.dirs[p] :: x.m.tables[k])
    ensures KeepsOwnerless(a, b)
  {
    forall d <- Ownerless(a)
      ensures KeptAt(a.x.m, b.x.m, d)
    {
      BuildKeeps(a.x, x, dir, d);
      ReleaseKeeps(x.m, b.x.m, a.dirs[p], d);
    }
  }

  lemma ReapKeeps(a: Moment, b: Moment, p: nat)
    requires p in a.dirs && b.x.m.leaves == (map s <- a.x.m.leaves | s.dir != a.dirs[p] :: a.x.m.leaves[s])
    requires b.x.m.tables == (map k <- a.x.m.tables | k.dir != a.dirs[p] :: a.x.m.tables[k])
    ensures KeepsOwnerless(a, b)
  {
    forall d <- Ownerless(a) ensures KeptAt(a.x.m, b.x.m, d) { ReleaseKeeps(a.x.m, b.x.m, a.dirs[p], d); }
  }

  /** Every process that is still there has its directory, or a new one, and its pages lie in the frames they lay in
      before or in frames of its own. */
  ghost predicate Inherited(a: Moment, b: Moment) {
    forall p <- b.dirs :: p in a.dirs ==>
      Inherits(a.x.m, b.x.m, b.dirs[p]) && (b.dirs[p] == a.dirs[p] || b.dirs[p] !in a.x.m.dirs)
  }

  /** The processes that are still there have the pages they had, in the same frames. */
  ghost predicate FramesStay(a: Moment, b: Moment) {
    forall q <- b.dirs :: q in a.dirs && b.dirs[q] == a.dirs[q] && FramesKept(a.x.m, b.x.m, b.dirs[q])
  }

  ghost predicate FramesKept(m: Layout, m': Layout, d: nat) {
    forall s: Slot :: s.dir == d ==> (s in m'.leaves <==> s in m.leaves) && (s in m.leaves ==> m'.leaves[s].frame == m.leaves[s].frame)
  }

  /** The child's pages lie in the frames of the parent's, and everyone else's stay where they are. */
  ghost predicate ForkShares(a: Moment, p: nat, c: nat, b: Moment) {
    p in a.dirs && c in b.dirs && b.dirs == a.dirs[c := b.dirs[c]] && ForkedLayout(a.x.m, b.x.m, a.dirs[p], b.dirs[c])
  }

  lemma NothingMoved(a: Moment, b: Moment)
    requires a.dirs == b.dirs && a.x.m.leaves == b.x.m.leaves && a.x.m.tables == b.x.m.tables && a.x.m.dirs == b.x.m.dirs
    ensures Inherited(a, b) && KeepsOwnerless(a, b) && Ownerless(b) == Ownerless(a)
  {
    LayoutKeeps(a, b);
  }

  lemma ForkInherited(a: Moment, b: Moment, p: nat, c: nat)
    requires p in a.dirs && ForkedLayout(a.x.m, b.x.m, a.dirs[p], c) && c !in a.x.m.dirs && b.dirs == a.dirs[a.next := c]
    requires a.next !in a.dirs && forall p <- a.dirs :: a.dirs[p] in a.x.m.dirs
    ensures Inherited(a, b)
  {
  }

  lemma StoreInherited(a: Moment, b: Moment)
    requires a.dirs == b.dirs && forall d: nat :: Inherits(a.x.m, b.x.m, d)
    ensures Inherited(a, b)
  {
    hide Inherits;
  }

  lemma ReapInherited(a: Moment, b: Moment, p: nat)
    requires p in a.dirs && b.dirs == a.dirs - {p}
    requires b.x.m.leaves == (map s <- a.x.m.leaves | s.dir != a.dirs[p] :: a.x.m.leaves[s])
    ensures Inherited(a, b)
  {
  }

  /** A new program's pages are its own. */
  lemma BuildInherits(x0: Memory, x: Memory, dir: nat)
    requires Sound(x) && NewSpace(x0, x, dir) && Settled(x, dir)
    ensures forall d: nat :: Inherits(x0.m, x.m, d)
  {
    hide KernelHalf, Agrees, Balanced, Shows, Uncounted, Tidy;
    forall t <- x.m.leaves | t.dir != dir ensures t in x0.m.leaves && x0.m.leaves[t] == x.m.leaves[t] {
      assert t in OtherLeaves(x.m, dir);
    }
  }

  lemma SpawnInherited(a: Moment, b: Moment, dir: nat)
    requires Sound(b.x) && NewSpace(a.x, b.x, dir) && Settled(b.x, dir)
    requires b.dirs == a.dirs || (a.next !in a.dirs && b.dirs == a.dirs[a.next := dir])
    ensures Inherited(a, b)
  {
    BuildInherits(a.x, b.x, dir);
    hide Inherits, Sound, NewSpace, Settled;
  }

  lemma ExecInherited(a: Moment, x: Memory, b: Moment, p: nat, dir: nat)
    requires Sound(x) && NewSpace(a.x, x, dir) && Settled(x, dir)
    requires p in a.dirs && b.dirs == a.dirs[p := dir]
    requires b.x.m.leaves == (map s <- x.m.leaves | s.dir != a.dirs[p] :: x.m.leaves[s])
    ensures Inherited(a, b)
  {
    BuildInherits(a.x, x, dir);
    assert dir !in a.x.m.dirs;
    hide Inherits, Sound, NewSpace, Settled;
    forall d: nat ensures Inherits(a.x.m, b.x.m, d) { InheritsOn(a.x.m, x.m, b.x.m, d); }
  }

  lemma InheritsOn(m: Layout, m': Layout, m'': Layout, d: nat)
    requires Inherits(m, m', d) && m''.leaves.Keys <= m'.leaves.Keys && (forall t <- m''.leaves :: m''.leaves[t] == m'.leaves[t])
    ensures Inherits(m, m'', d)
  {
    forall t <- m''.leaves | t.dir == d && LeafUses(m', m'.leaves[t].frame) == {t}
      ensures LeafUses(m'', m''.leaves[t].frame) == {t}
    {
      assert t in LeafUses(m'', m''.leaves[t].frame);
      forall u | u in LeafUses(m'', m''.leaves[t].frame) ensures u == t { assert u in LeafUses(m', m'.leaves[t].frame); }
    }
  }

  /** One operation, as the eager semantics has it; what it does to the frames outside the page tables and
      to those that processes share; and when it fails for lack of frames. */
  ghost predicate Stepped(a: Moment, op: Op, ev: Event, b: Moment) {
    && Allowed(a.View(), op, ev) && b.View() == Next(a.View(), op, ev)
    && b.x.reserved == a.x.reserved
    && (LeakFreeOp(op) ==> b.x.held == a.x.held)
    && (ev.Started? && b.x.held == a.x.held ==> LeakFreeOp(op))
    && (op.HeapOp? && ev.Grown? ==> HeapHeld(a.x, b.x))
    && ((op.ExecOp? || op.SpawnOp?) && ev.Started? ==> StackLeft(a.x, op.elf, ev.stack))
    && (Overreads(op) ==> ev.NoProcess?)
    && (op.PokeOp? && ev.Poked? ==> ev.sharers == Sharers(a, op.pid, PageOf(op.virt)))
    && (op.LoadOp? || op.ReapOp? || op.PokeOp? ==> FramesStay(a, b))
    && (op.ForkOp? && ev.Child? ==> ForkShares(a, op.pid, ev.pid, b))
    && Leftovers(a, op, ev, b)
    && (ev.OutOfFrames? <==> Scarce(a.x, a.dirs, op))
    && Inherited(a, b)
  }

  lemma ForkStepped(a: Moment, b: Moment, p: nat, c: nat)
    requires AtRest(a) && p in a.dirs && ForkRoom(a.x, a.dirs[p]) && c !in a.x.m.dirs
    requires b.dirs == a.dirs[a.next := c] && b.next == a.next + 1 && b.x.m.dirs == a.x.m.dirs + {c}
    requires b.x.image == EagerFork(a.x.image, a.dirs[p], c) && ForkedLayout(a.x.m, b.x.m, a.dirs[p], c)
    requires b.x.held == a.x.held && b.x.reserved == a.x.reserved
    ensures TableValid(b.dirs, b.next, b.x.m.dirs) && OwnerlessPrivate(b) && Stepped(a, ForkOp(p), Child(a.next), b)
  {
    hide Sound, Tidy, EagerFork, ForkedLayout, ForkRoom, SpaceOf, Next, Allowed, Inherited, KeepsOwnerless, OwnerlessPrivate;
    ForkKeeps(a, b, p, c);
    NothingInNew(a.x);
    ForkAllowed(a.dirs, a.x.image, a.next, p);
    ViewAfterFork(a.dirs, a.x.image, a.next, a.x.m.dirs, p, c);
    OneMoreProcess(a.dirs, a.next, c);
    ForkInherited(a, b, p, c);
    assert Ownerless(b) == Ownerless(a);
    StaysPrivate(a, ForkOp(p), Child(a.next), b);
  }

  /** A build that succeeded, before it is put to use. */
  ghost predicate Ready(x0: Memory, x: Memory, dir: nat, elf: seq<bv8>, stack: seq<bv8>) {
    && Sound(x) && NewSpace(x0, x, dir) && Settled(x, dir) && x.reserved == x0.reserved
    && IsElf32(elf) && |stack| == FRAME_SIZE && FramesToBuild(elf) <= |FreeOf(x0)|
    && (x.held == x0.held <==> Clean(elf)) && (forall s <- x0.image :: s.dir != dir) && StackLeft(x0, elf, stack)
    && x.image == WithPage(ImageWith(x0.image, dir, PagesToLoad(elf, SegmentCount(elf))), dir, LoadPage(USER_STACK_VADDR, stack))
  }

  lemma ExecStepped(a: Moment, x: Memory, b: Moment, p: nat, dir: nat, elf: seq<bv8>, stack: seq<bv8>)
    requires AtRest(a) && p in a.dirs && Ready(a.x, x, dir, elf, stack) && Contained(elf)
    requires b.dirs == a.dirs[p := dir] && b.next == a.next && b.x.m.dirs == x.m.dirs - {a.dirs[p]}
    requires b.x.m.leaves == (map s <- x.m.leaves | s.dir != a.dirs[p] :: x.m.leaves[s])
    requires b.x.m.tables == (map k <- x.m.tables | k.dir != a.dirs[p] :: x.m.tables[k])
    requires b.x.image == EagerDrop(x.image, a.dirs[p]) && b.x.held == x.held && b.x.reserved == x.reserved
    ensures TableValid(b.dirs, b.next, b.x.m.dirs) && OwnerlessPrivate(b)
    ensures Stepped(a, ExecOp(p, elf), Started(p, EntryPoint(elf), stack), b)
  {
    hide Contained, Sound, Tidy, EagerDrop, ImageWith, WithPage, PagesToLoad, SegmentCount, NewSpace, IsElf32, Clean, Settled, FramesToBuild, FreeOf;
    hide SpaceOf, Next, Allowed, Inherited, TableValid, StackLeft, KeepsOwnerless, OwnerlessPrivate, Ownerless;
    NewSpaceIs(a.x, x, dir);
    ViewAfterExec(a.dirs, a.x.image, a.next, a.x.m.dirs, p, dir, elf, EntryPoint(elf), stack);
    StartAllowed(a.View(), ExecOp(p, elf), stack);
    ExecInherited(a, x, b, p, dir);
    ExecKeeps(a, x, b, p, dir);
    SameOwnerless(a, x, b, p, dir);
    StaysPrivate(a, ExecOp(p, elf), Started(p, EntryPoint(elf), stack), b);
  }

  lemma SameOwnerless(a: Moment, x: Memory, b: Moment, p: nat, dir: nat)
    requires TableValid(a.dirs, a.next, a.x.m.dirs) && p in a.dirs && dir !in a.x.m.dirs && x.m.dirs == a.x.m.dirs + {dir}
    requires b.dirs == a.dirs[p := dir] && b.x.m.dirs == x.m.dirs - {a.dirs[p]}
    ensures Ownerless(b) == Ownerless(a)
  {
    ProcessMoved(a.dirs, a.next, a.x.m.dirs, p, dir);
  }

  lemma SpawnStepped(a: Moment, b: Moment, dir: nat, elf: seq<bv8>, stack: seq<bv8>)
    requires AtRest(a) && Ready(a.x, b.x, dir, elf, stack) && Contained(elf) && b.dirs == a.dirs[a.next := dir] && b.next == a.next + 1
    ensures TableValid(b.dirs, b.next, b.x.m.dirs) && OwnerlessPrivate(b)
    ensures Stepped(a, SpawnOp(elf), Started(a.next, EntryPoint(elf), stack), b)
  {
    hide Contained, Sound, Tidy, ImageWith, WithPage, PagesToLoad, SegmentCount, NewSpace, IsElf32, Clean, Settled, FramesToBuild, FreeOf;
    hide SpaceOf, Next, Allowed, Inherited, TableValid, StackLeft, KeepsOwnerless, OwnerlessPrivate, Ownerless;
    DirsLive(a.dirs, a.next, a.x.m.dirs);
    NewSpaceIs(a.x, b.x, dir);
    ViewAfterSpawn(a.dirs, a.x.image, a.next, a.x.m.dirs, dir, elf, EntryPoint(elf), stack);
    StartAllowed(a.View(), SpawnOp(elf), stack);
    SpawnInherited(a, b, dir);
    SpawnKeeps(a, b, dir);
    NoneOwnerless(a, b, dir);
    StaysPrivate(a, SpawnOp(elf), Started(a.next, EntryPoint(elf), stack), b);
  }

  lemma OneOwnerless(a: Moment, b: Moment, dir: nat)
    requires TableValid(a.dirs, a.next, a.x.m.dirs)
    requires dir !in a.x.m.dirs && b.x.m.dirs == a.x.m.dirs + {dir} && b.dirs == a.dirs
    ensures Ownerless(b) == Ownerless(a) + {dir}
  {
    assert forall p <- a.dirs :: a.dirs[p] in a.x.m.dirs;
  }

  lemma NoneOwnerless(a: Moment, b: Moment, dir: nat)
    requires dir !in a.x.m.dirs && b.x.m.dirs == a.x.m.dirs + {dir} && a.next !in a.dirs && b.dirs == a.dirs[a.next := dir]
    ensures Ownerless(b) == Ownerless(a)
  {
    OneMoreProcess(a.dirs, a.next, dir);
  }

  /** A build that failed, or was refused. */
  ghost predicate Failed(x0: Memory, x: Memory, elf: seq<bv8>) {
    && x.reserved == x0.reserved && (Clean(elf) || !IsElf32(elf) ==> x.held == x0.held)
    && (!IsElf32(elf) <==> FramesToBuild(elf) <= |FreeOf(x0)|)
  }

  lemma ExecFailed(a: Moment, b: Moment, p: nat, elf: seq<bv8>)
    requires AtRest(a) && p in a.dirs && Failed(a.x, b.x, elf) && Contained(elf) && b.dirs == a.dirs && b.next == a.next
    requires b.x.image == a.x.image && b.x.m.dirs == a.x.m.dirs && b.x.m.leaves == a.x.m.leaves && b.x.m.tables == a.x.m.tables
    ensures OwnerlessPrivate(b) && Stepped(a, ExecOp(p, elf), if IsElf32(elf) then OutOfFrames else Refused, b)
  {
    hide Contained, KeepsOwnerless, OwnerlessPrivate;
    hide Sound, Tidy, Clean, IsElf32, FramesToBuild, FreeOf, SpaceOf, Next, Allowed, Inherited, TableValid;
    FailureAllowed(a.View(), ExecOp(p, elf));
    NothingMoved(a, b);
    StaysPrivate(a, ExecOp(p, elf), if IsElf32(elf) then OutOfFrames else Refused, b);
  }

  lemma SpawnFailed(a: Moment, b: Moment, dir: nat, elf: seq<bv8>, done: seq<LoadPage>)
    requires AtRest(a) && Failed(a.x, b.x, elf) && Contained(elf) && b.dirs == a.dirs && b.next == a.next
    requires Sound(b.x) && NewSpace(a.x, b.x, dir) && Settled(b.x, dir) && (forall s <- a.x.image :: s.dir != dir)
    requires b.x.image == ImageWith(a.x.image, dir, done) && FreeOf(a.x) != {}
    requires if IsElf32(elf) then FreeOf(b.x) == {} else |FreeOf(b.x)| == |FreeOf(a.x)| - 1
    ensures TableValid(b.dirs, b.next, b.x.m.dirs) && OwnerlessPrivate(b)
    ensures Stepped(a, SpawnOp(elf), if IsElf32(elf) then OutOfFrames else Refused, b)
  {
    hide Contained, KeepsOwnerless, OwnerlessPrivate, Private, Ownerless;
    hide Sound, Tidy, Clean, IsElf32, FramesToBuild, FreeOf, SpaceOf, Next, Allowed, Inherited, TableValid, ImageWith, NewSpace, Settled;
    SpawnKeeps(a, b, dir);
    SettledPrivate(b.x, dir);
    NewSpaceIs(a.x, b.x, dir);
    ViewAfterFailedSpawn(a.dirs, a.x.image, a.next, a.x.m.dirs, dir, done);
    FailureAllowed(a.View(), SpawnOp(elf));
    SpawnInherited(a, b, dir);
    OneOwnerless(a, b, dir);
    StaysPrivate(a, SpawnOp(elf), if IsElf32(elf) then OutOfFrames else Refused, b);
  }

  /** What a program can read when it starts: zeros, the bytes of its file, and on its stack page whatever the frame that
      became the stack page last held, be it another program's memory or a page table. */
  lemma StartedBytes(a: Moment, op: Op, ev: Event, b: Moment, q: VPage, o: nat)
    requires Stepped(a, op, ev, b) && (op.ExecOp? || op.SpawnOp?) && ev.Started? && o < FRAME_SIZE
    ensures ev.pid in b.View().spaces
    ensures q in b.View().spaces[ev.pid] ==> |b.View().spaces[ev.pid][q]| == FRAME_SIZE
    ensures q in b.View().spaces[ev.pid] && q != PageOf(USER_STACK_VADDR) ==>
      b.View().spaces[ev.pid][q][o] == 0 || exists i :: 0 <= i < |op.elf| && b.View().spaces[ev.pid][q][o] == op.elf[i]
    ensures PageOf(USER_STACK_VADDR) in b.View().spaces[ev.pid]
    ensures StackLeft(a.x, op.elf, b.View().spaces[ev.pid][PageOf(USER_STACK_VADDR)])
  {
    hide Leftovers, Inherited, LeakFreeOp, Scarce, HeapHeld, NthFree, FramesBeforeStack, PageOf, LoadSpace, SpaceOf, PagesToLoad;
    hide Contained, IsElf32, Sharers, FramesStay;
    var f :| NthFree(a.x, FramesBeforeStack(op.elf), f) && ev.stack == BytesAt(a.x.ram, f);
    assert b.View().spaces[ev.pid] == ProgramSpace(op.elf, ev.stack);
    if q in b.View().spaces[ev.pid] { ProgramBytes(op.elf, ev.stack, q, o); }
  }

  /** An operation that finds nothing to do. */
  lemma IdleStepped(a: Moment, op: Op, ev: Event)
    requires AtRest(a) && Allowed(a.View(), op, ev) && Next(a.View(), op, ev) == a.View()
    requires !op.SpawnOp? && (ev.NoProcess? || ((ev.Halted? || ev.Byte?) && !op.ExecOp?)) && !Scarce(a.x, a.dirs, op)
    ensures Stepped(a, op, ev, a)
  {
    hide Sound, Tidy, Contained, Sharers, Allowed, Next, ViewOf, Scarce, Clean, Inherited, KeepsOwnerless, Ownerless;
    NothingMoved(a, a);
  }

  lemma StoreStepped(a: Moment, b: Moment, p: nat, virt: nat, byte: bv8)
    requires AtRest(a) && p in a.dirs && SlotOf(a.dirs[p], virt) in a.x.image
    requires Storable(a.x, SlotOf(a.dirs[p], virt)) && b.dirs == a.dirs && b.next == a.next
    requires b.x.image == Poke(a.x.image, SlotOf(a.dirs[p], virt), OffsetOf(virt), byte)
    requires b.x.m.dirs == a.x.m.dirs && b.x.held == a.x.held && b.x.reserved == a.x.reserved
    requires (forall d: nat :: Inherits(a.x.m, b.x.m, d)) && forall d: nat :: d != a.dirs[p] ==> KeptAt(a.x.m, b.x.m, d)
    ensures OwnerlessPrivate(b) && Stepped(a, StoreOp(p, virt, byte), Stored, b)
  {
    hide Sound, Tidy, Poke, PokeSpace, SpaceOf, Storable, PageOf, OffsetOf, Inherited, Inherits, KeptAt, KeepsOwnerless, OwnerlessPrivate;
    ViewAfterStore(a.dirs, a.x.image, a.next, a.x.m.dirs, p, virt, byte);
    StoreInherited(a, b);
    StoreKeeps(a, b, a.dirs[p]);
    StaysPrivate(a, StoreOp(p, virt, byte), Stored, b);
  }

  /** A store by the kernel moves no page and makes no copy. */
  lemma PokeStepped(a: Moment, b: Moment, p: nat, virt: nat, byte: bv8)
    requires AtRest(a) && p in a.dirs && SlotOf(a.dirs[p], virt) in a.x.m.leaves && b.dirs == a.dirs && b.next == a.next
    requires a.x.image.Keys == a.x.m.leaves.Keys && (forall u <- a.x.image :: |a.x.image[u]| == FRAME_SIZE) && OffsetOf(virt) < FRAME_SIZE
    requires b.x.image == KernelPoked(a.x, SlotOf(a.dirs[p], virt), OffsetOf(virt), byte)
    requires b.x.m == a.x.m && b.x.held == a.x.held && b.x.reserved == a.x.reserved
    ensures OwnerlessPrivate(b) && Stepped(a, PokeOp(p, virt, byte), Poked(Sharers(a, p, PageOf(virt))), b)
  {
    hide Sound, Tidy, SpaceOf, PageOf, OffsetOf, KernelPoked, Allowed, Next, Inherited, KeepsOwnerless, OwnerlessPrivate, Sharers;
    hide ViewOf, FramesStay, Ownerless;
    ViewAfterPoke(a, p, virt, byte);
    PokeAllowed(a, p, virt, byte);
    NothingMoved(a, b);
    NoFrameMoved(a, b);
    StaysPrivate(a, PokeOp(p, virt, byte), Poked(Sharers(a, p, PageOf(virt))), b);
  }

  lemma NoFrameMoved(a: Moment, b: Moment)
    requires a.dirs == b.dirs && a.x.m == b.x.m
    ensures FramesStay(a, b)
  {
  }

  lemma TidyToo(x: Memory, y: Memory)
    requires Tidy(x) && y.m == x.m && y.held == x.held
    ensures Tidy(y)
  {
  }

  lemma ReapFrames(a: Moment, b: Moment, p: nat)
    requires TableValid(a.dirs, a.next, a.x.m.dirs) && p in a.dirs && b.dirs == a.dirs - {p}
    requires b.x.m.leaves == (map s <- a.x.m.leaves | s.dir != a.dirs[p] :: a.x.m.leaves[s])
    ensures FramesStay(a, b)
  {
  }

  lemma ReapStepped(a: Moment, b: Moment, p: nat)
    requires AtRest(a) && p in a.dirs && b.dirs == a.dirs - {p} && b.next == a.next && b.x.m.dirs == a.x.m.dirs - {a.dirs[p]}
    requires b.x.m.leaves == (map s <- a.x.m.leaves | s.dir != a.dirs[p] :: a.x.m.leaves[s])
    requires b.x.m.tables == (map k <- a.x.m.tables | k.dir != a.dirs[p] :: a.x.m.tables[k])
    requires b.x.image == EagerDrop(a.x.image, a.dirs[p]) && b.x.held == a.x.held && b.x.reserved == a.x.reserved
    ensures TableValid(b.dirs, b.next, b.x.m.dirs) && OwnerlessPrivate(b) && Stepped(a, ReapOp(p), Reaped, b)
  {
    hide Sound, Tidy, EagerDrop, SpaceOf, Inherited, KeepsOwnerless, OwnerlessPrivate;
    ReapFrames(a, b, p);
    hide TableValid, FramesStay;
    ViewAfterReap(a.dirs, a.x.image, a.next, a.x.m.dirs, p);
    OneProcessLess(a.dirs, a.next, a.x.m.dirs, p);
    ReapInherited(a, b, p);
    ReapKeeps(a, b, p);
    assert Ownerless(b) == Ownerless(a);
    StaysPrivate(a, ReapOp(p), Reaped, b);
  }

  lemma HeapStepped(a: Moment, b: Moment, heapEnd: nat, n: nat)
    requires AtRest(a) && n in FreeOf(a.x) && n < MAX_FRAMES && b.dirs == a.dirs && b.next == a.next
    requires b.x.m == a.x.m && b.x.image == a.x.image && b.x.held == Hold(a.x.held, n) && b.x.reserved == a.x.reserved
    ensures OwnerlessPrivate(b) && Stepped(a, HeapOp(heapEnd), Grown, b)
  {
    hide Sound, Tidy, SpaceOf, Inherited, KeepsOwnerless, OwnerlessPrivate, TableValid;
    NothingMoved(a, b);
    StaysPrivate(a, HeapOp(heapEnd), Grown, b);
  }

  lemma StartsAtRest(x: Memory, firstId: nat)
    requires forall d <- x.m.dirs :: Private(x.m, d)
    ensures var a := Moment(x, map[], firstId);
      && OwnerlessPrivate(a) && TableValid(a.dirs, a.next, x.m.dirs)
      && Ownerless(a) == x.m.dirs && a.View() == Eager(map[], firstId)
  {
    hide Private, SpaceOf;
    var a := Moment(x, map[], firstId);
    assert a.dirs.Values == {};
  }

  class ProcessTable {
    const mem: AddressSpaces
    var dirs: map<nat, nat>  // the page directory of each task
    var nextId: nat

    ghost function Now(): Moment
      reads this, mem, mem.pmm, mem.pmm.frameRefcount, mem.ram
      requires mem.Apart()
    {
      Moment(mem.Now(), dirs, nextId)
    }

    ghost predicate Valid()
      reads this, mem, mem.pmm, mem.pmm.frameBitmap, mem.pmm.frameRefcount, mem.ram
    {
      mem.Valid() && AtRest(Now())
    }

    lemma Rests()
      requires Valid()
      ensures AtRest(Now())
    {
    }

    constructor (mem: AddressSpaces, firstId: nat)
      requires mem.Valid() && Tidy(mem.Now()) && forall d <- mem.m.dirs :: Private(mem.m, d)
      ensures Valid() && this.mem == mem && mem.Now() == old(mem.Now())
      ensures Now().View() == Eager(map[], firstId) && Ownerless(Now()) == mem.m.dirs && dirs == map[] && nextId == firstId
    {
      this.mem, this.dirs, this.nextId := mem, map[], firstId;
      new;
      hide Sound, Tidy, Private, OwnerlessPrivate, Ownerless, TableValid, SpaceOf;
      StartsAtRest(mem.Now(), firstId);
    }

    /** SYS_FORK. None when fork's unchecked assumptions do not hold. */
    method Fork(p: nat) returns (r: Option<Event>)
      requires Valid()
      modifies this, mem, mem.ram, mem.pmm, mem.pmm.frameBitmap, mem.pmm.frameRefcount
      ensures r.Some? ==> Valid() && Stepped(old(Now()), ForkOp(p), r.value, Now())
      ensures r.None? ==> Scarce(old(mem.Now()), old(dirs), ForkOp(p))
    {
      hide Sound, Tidy, EagerFork, TableIndexes, ForkRoom, Forkable, ForkedLayout, ViewOf, TableValid, Allowed, Next, Stepped, OwnerlessPrivate;
      ForkAllowed(dirs, mem.image, nextId, p);
      NoSuchProcess(Now().View(), ForkOp(p));
      DirsLive(dirs, nextId, mem.m.dirs);
      if p !in dirs {
        IdleStepped(Now(), ForkOp(p), NoProcess);
        return Some(NoProcess);
      }
      var room := HasForkRoom(mem, dirs[p]);
      if !room { return None; }
      RoomForFork(mem.Now(), dirs[p]);
      var c := CloneAddressSpace(mem, dirs[p]);
      var id := nextId;
      dirs, nextId := dirs[id := c], nextId + 1;
      ForkStepped(old(Now()), Now(), p, c);
      return Some(Child(id));
    }

    /** A ring-3 load. */
    method Load(p: nat, virt: nat) returns (r: Option<Event>)
      requires Valid() && virt < 0x1_0000_0000
      ensures r.Some? && Stepped(Now(), LoadOp(p, virt), r.value, Now())
    {
      hide Sound, Tidy, TableValid, SpaceOf, PageOf, OffsetOf, ForkRoom, Storable, FramesToBuild, Stepped, OwnerlessPrivate;
      DirsLive(dirs, nextId, mem.m.dirs);
      if p !in dirs {
        IdleStepped(Now(), LoadOp(p, virt), NoProcess);
        return Some(NoProcess);
      }
      var b := UserAccess.Load(mem, dirs[p], virt);
      InSpace(mem.image, dirs[p], PageOf(virt));
      AddressSplits(virt);
      r := Some(if b.Some? then Byte(b.value) else Halted);
      IdleStepped(Now(), LoadOp(p, virt), r.value);
    }

    /** A ring-3 store. None when a copy is needed and no frame is left. */
    method Store(p: nat, virt: nat, b: bv8) returns (r: Option<Event>)
      requires Valid() && virt < 0x1_0000_0000
      modifies this, mem, mem.ram, mem.pmm, mem.pmm.frameBitmap, mem.pmm.frameRefcount
      ensures r.Some? ==> Valid() && Stepped(old(Now()), StoreOp(p, virt, b), r.value, Now())
      ensures r.None? ==> Scarce(old(mem.Now()), old(dirs), StoreOp(p, virt, b)) && old(mem.pmm.Free()) == {}
    {
      hide Sound, Tidy, Poke, PokeSpace, SpaceOf, Storable, PageOf, OffsetOf, Inherits, KeptAt, Stepped, OwnerlessPrivate;
      if p !in dirs {
        IdleStepped(Now(), StoreOp(p, virt, b), NoProcess);
        return Some(NoProcess);
      }
      ghost var x, s := mem.Now(), SlotOf(dirs[p], virt);
      ImageKeys(x);
      InSpace(x.image, dirs[p], PageOf(virt));
      var t := Translate(mem, dirs[p], virt);
      var ok := UserAccess.Store(mem, dirs[p], virt, b);
      if ok {
        StoreStepped(old(Now()), Now(), p, virt, b);
        return Some(Stored);
      }
      if t.Missing? {
        IdleStepped(Now(), StoreOp(p, virt, b), Halted);
        return Some(Halted);
      }
      WhyNotStored(x, s);
      return None;
    }

    /** Whose page lies in a frame: what a store to it is seen by. The code does not look. */
    method SharersOf(p: nat, virt: nat, frame: nat) returns (sharers: set<nat>)
      requires Valid() && virt < 0x1_0000_0000 && p in dirs
      requires SlotOf(dirs[p], virt) in mem.m.leaves && frame == mem.m.leaves[SlotOf(dirs[p], virt)].frame
      ensures sharers == Sharers(Now(), p, PageOf(virt))
    {
      hide Sound, PageOf, OwnerlessPrivate, Tidy;
      DirsLive(dirs, nextId, mem.m.dirs);
      sharers := {};
      var todo := dirs.Keys;
      while todo != {}
        invariant todo <= dirs.Keys && sharers == Sharers(Now(), p, PageOf(virt)) - todo
      {
        var q :| q in todo;
        var t := Translate(mem, dirs[q], virt);
        todo := todo - {q};
        if !t.Missing? && t.frame == frame { sharers := sharers + {q}; }
      }
    }

    /** A store by the kernel through a process's mapping: no fault where the page is write-protected, and no copy. */
    method StoreByKernel(p: nat, virt: nat, b: bv8) returns (r: Option<Event>)
      requires Valid() && IDENTITY_TABLES <= PageOf(virt).pd && virt < 0x1_0000_0000
      modifies this, mem, mem.ram
      ensures r.Some? && Valid() && Stepped(old(Now()), PokeOp(p, virt, b), r.value, Now())
    {
      hide Sound, SpaceOf, PageOf, OffsetOf, KernelPoked, Stepped, OwnerlessPrivate, Sharers, Tidy;
      DirsLive(dirs, nextId, mem.m.dirs);
      if p !in dirs {
        IdleStepped(Now(), PokeOp(p, virt, b), NoProcess);
        return Some(NoProcess);
      }
      ImageShape(mem.Now());
      AddressSplits(virt);
      InSpace(mem.image, dirs[p], PageOf(virt));
      var t := Translate(mem, dirs[p], virt);
      if t.Missing? {
        IdleStepped(Now(), PokeOp(p, virt, b), Halted);
        return Some(Halted);
      }
      var sharers := SharersOf(p, virt, t.frame);
      var ok := KernelStore(mem, dirs[p], virt, b);
      TidyToo(old(mem.Now()), mem.Now());
      PokeStepped(old(Now()), Now(), p, virt, b);
      return Some(Poked(sharers));
    }

    /** SYS_EXEC on a file already read into memory. The old program goes only once the new one is
        complete; an exec that fails changes nothing the processes can see, and gives every frame back
        if the file's pages are distinct user pages. */
    method Exec(p: nat, elf: seq<bv8>) returns (r: Option<Event>)
      requires Valid()
      modifies this, mem, mem.ram, mem.pmm, mem.pmm.frameBitmap, mem.pmm.frameRefcount
      ensures r.Some? ==> Valid() && Stepped(old(Now()), ExecOp(p, elf), r.value, Now())
      ensures r.Some? && (r.value.Refused? || (r.value.OutOfFrames? && PagesDistinct(PagesToLoad(elf, SegmentCount(elf))))) ==>
        mem.pmm.Free() == old(mem.pmm.Free())
      ensures r.None? ==> Unfollowed(old(mem.Now()), old(dirs), ExecOp(p, elf))
    {
      hide Contained, FramesToBuild, Sound, Tidy, EagerDrop, ImageWith, WithPage, PagesToLoad, SegmentCount, NewSpace, IsElf32, NoLeaks;
      hide PagesDistinct, Clean, Allowed, Next, TableValid, SpaceOf, Settled, Stepped, OwnerlessPrivate, NthFree, BytesAt, FramesBeforeStack;
      hide Uncounted, Marks, FramesBelow, FreeFrames, WellFormed;
      NoSuchProcess(Now().View(), ExecOp(p, elf));
      DirsLive(dirs, nextId, mem.m.dirs);
      if p !in dirs {
        IdleStepped(Now(), ExecOp(p, elf), NoProcess);
        return Some(NoProcess);
      }
      if !Contained(elf) { return None; }
      ghost var a, x0 := Now(), mem.Now();
      var b, stack;
      ghost var done, f;
      b, stack, done, f := BuildProgram(mem, elf);
      if b.Lost? { return None; }
      ghost var x := mem.Now();
      SettledTidy(x, b.dir);
      NewSpaceIs(x0, x, b.dir);
      if b.NotBuilt? {
        Unbuild(mem, b.dir, x0, done);
        CleanPrefix(x0.image, b.dir, elf, done);
        assert Failed(x0, mem.Now(), elf);
        ExecFailed(a, Now(), p, elf);
        return Some(if b.bad then Refused else OutOfFrames);
      }
      assert Ready(x0, x, b.dir, elf, stack);
      hide Ready, StackLeft;
      var oldDir := dirs[p];
      dirs := dirs[p := b.dir];
      ReleaseAddressSpace(mem, oldDir);
      ExecStepped(a, x, Now(), p, b.dir, elf, stack);
      r := Some(Started(p, b.entry, stack));
    }

    /** The shell's run command: a new program in a new process. Where exec cleans up after a file that
        does not load, run does not. */
    method Spawn(elf: seq<bv8>) returns (r: Option<Event>)
      requires Valid()
      modifies this, mem, mem.ram, mem.pmm, mem.pmm.frameBitmap, mem.pmm.frameRefcount
      ensures r.Some? ==> Valid() && Stepped(old(Now()), SpawnOp(elf), r.value, Now())
      ensures r.None? ==> Unfollowed(old(mem.Now()), old(dirs), SpawnOp(elf))
    {
      hide Contained, FramesToBuild, Sound, Tidy, ImageWith, WithPage, PagesToLoad, SegmentCount, NewSpace, IsElf32, NoLeaks, PagesDistinct;
      hide Clean, Allowed, Next, TableValid, SpaceOf, Settled, Stepped, OwnerlessPrivate, NthFree, BytesAt, FramesBeforeStack;
      if !Contained(elf) { return None; }
      ghost var a, x0 := Now(), mem.Now();
      var b, stack;
      ghost var done, f;
      b, stack, done, f := BuildProgram(mem, elf);
      if b.Lost? { return None; }
      SettledTidy(mem.Now(), b.dir);
      if b.NotBuilt? {
        CleanPrefix(x0.image, b.dir, elf, done);
        assert Failed(x0, mem.Now(), elf);
        SpawnFailed(a, Now(), b.dir, elf, done);
        return Some(if b.bad then Refused else OutOfFrames);
      }
      assert Ready(x0, mem.Now(), b.dir, elf, stack);
      hide Ready, StackLeft;
      dirs, nextId := dirs[nextId := b.dir], nextId + 1;
      SpawnStepped(a, Now(), b.dir, elf, stack);
      r := Some(Started(nextId - 1, b.entry, stack));
    }

    /** Reaping: task_wait_specific's release of the child's address space. */
    method Reap(p: nat) returns (r: Option<Event>)
      requires Valid()
      modifies this, mem, mem.ram, mem.pmm, mem.pmm.frameBitmap, mem.pmm.frameRefcount
      ensures r.Some? && Valid() && Stepped(old(Now()), ReapOp(p), r.value, Now())
    {
      hide Sound, Tidy, EagerDrop, Stepped, OwnerlessPrivate, TableValid;
      DirsLive(dirs, nextId, mem.m.dirs);
      if p !in dirs {
        IdleStepped(Now(), ReapOp(p), NoProcess);
        return Some(NoProcess);
      }
      ReleaseAddressSpace(mem, dirs[p]);
      dirs := dirs - {p};
      ReapStepped(old(Now()), Now(), p);
      return Some(Reaped);
    }

    /** The kernel's heap grows by a page, at an address whose frame can never be handed out. */
    method GrowHeap(heapEnd: nat) returns (r: Option<Event>)
      requires Valid() && PageOf(heapEnd).pd < IDENTITY_TABLES && heapEnd / FRAME_SIZE in mem.pmm.reserved
      modifies this, mem, mem.ram, mem.pmm, mem.pmm.frameBitmap, mem.pmm.frameRefcount
      ensures r.Some? ==> Valid() && Stepped(old(Now()), HeapOp(heapEnd), r.value, Now())
      ensures r.None? ==> Scarce(old(mem.Now()), old(dirs), HeapOp(heapEnd))
    {
      hide Sound, Tidy, Stepped, OwnerlessPrivate, TableValid;
      var n := ExtendHeap(mem, heapEnd);
      if n == 0 { return None; }
      HeapStepped(old(Now()), Now(), heapEnd, n);
      return Some(Grown);
    }

    method Step(op: Op) returns (r: Option<Event>)
      requires Valid() && ValidOp(op) && (op.HeapOp? ==> op.heapEnd / FRAME_SIZE in mem.pmm.reserved)
      modifies this, mem, mem.ram, mem.pmm, mem.pmm.frameBitmap, mem.pmm.frameRefcount
      ensures r.Some? ==> Valid() && Stepped(old(Now()), op, r.value, Now())
      ensures r.None? ==> Unfollowed(old(mem.Now()), old(dirs), op)
    {
      hide Sound, Tidy, Stepped, TableValid, ForkRoom, OwnerlessPrivate, Contained;
      match op
      case ForkOp(p) => r := Fork(p);
      case LoadOp(p, virt) => r := Load(p, virt);
      case StoreOp(p, virt, b) => r := Store(p, virt, b);
      case PokeOp(p, virt, b) => r := StoreByKernel(p, virt, b);
      case ExecOp(p, elf) => r := Exec(p, elf);
      case SpawnOp(elf) => r := Spawn(elf);
      case ReapOp(p) => r := Reap(p);
      case HeapOp(heapEnd) => r := GrowHeap(heapEnd);
    }

    /** Copy-on-write refines eager copying: over every run, for as long as no operation finds frames or reference counts too
        scarce and no file reaches past its end, every event is one the eager semantics produces and every process's memory is
        what the eager semantics says; and at every moment between operations the reference counts are exact. A run ends
        early only in a machine halt. */
    method Run(ops: seq<Op>) returns (evs: seq<Event>, lost: bool, ghost trail: seq<Moment>)
      requires Valid() && forall op <- ops :: ValidOp(op)
      requires forall op <- ops :: op.HeapOp? ==> op.heapEnd / FRAME_SIZE in mem.pmm.reserved
      modifies this, mem, mem.ram, mem.pmm, mem.pmm.frameBitmap, mem.pmm.frameRefcount
      ensures |evs| <= |ops| && |trail| == |evs| + 1 && trail[0] == old(Now())
      ensures AllAllowed(old(Now()).View(), ops[..|evs|], evs)
      ensures trail[|evs|].View() == After(old(Now()).View(), ops[..|evs|], evs)
      ensures forall a <- trail :: AtRest(a) && CountsExact(a.x.counts, a.x.m)
      ensures Trail(trail, ops[..|evs|], evs)
      ensures !lost ==> Valid() && Now() == trail[|evs|]
      ensures !lost && |evs| < |ops| ==> |evs| > 0 && evs[|evs| - 1].Halted?
      ensures lost ==> |evs| < |ops| && Unfollowed(trail[|evs|].x, trail[|evs|].dirs, ops[|evs|])
    {
      hide Sound, Tidy, CountsExact, Stepped, TableValid, OwnerlessPrivate, ViewOf, AllAllowed, After, Unfollowed, Trail;
      evs, lost, trail := [], false, [Now()];
      TidyCounts(mem.Now());
      NothingRun(Now());
      while |evs| < |ops| && (evs == [] || !evs[|evs| - 1].Halted?)
        invariant |evs| <= |ops| && |trail| == |evs| + 1 && trail[0] == old(Now())
        invariant Valid() && Now() == trail[|evs|]
        invariant AllAllowed(old(Now()).View(), ops[..|evs|], evs)
        invariant Now().View() == After(old(Now()).View(), ops[..|evs|], evs)
        invariant forall a <- trail :: AtRest(a) && CountsExact(a.x.counts, a.x.m)
        invariant Trail(trail, ops[..|evs|], evs)
        decreases |ops| - |evs|
      {
        ghost var before, was := ops[..|evs|], Now();
        var op := ops[|evs|];
        var r := Step(op);
        if r.None? { lost := true; return; }
        SteppedMore(trail, before, evs, op, r.value, Now());
        SteppedAllowed(was, op, r.value, Now());
        AllowedMore(old(Now()).View(), before, evs, op, r.value);
        TidyCounts(mem.Now());
        assert ops[..|evs| + 1] == before + [op];
        evs, trail := evs + [r.value], trail + [Now()];
      }
    }
  }

  ghost predicate StepAt(trail: seq<Moment>, ops: seq<Op>, evs: seq<Event>, i: nat)
    requires |trail| == |evs| + 1 && |ops| == |evs| && i < |evs|
  {
    Stepped(trail[i], ops[i], evs[i], trail[i + 1])
  }

  /** The moments of a run follow one another by its operations. */
  ghost predicate Trail(trail: seq<Moment>, ops: seq<Op>, evs: seq<Event>) {
    && |trail| == |evs| + 1 && |ops| == |evs|
    && forall i: nat :: i < |evs| ==> StepAt(trail, ops, evs, i)
  }

  lemma SteppedMore(trail: seq<Moment>, ops: seq<Op>, evs: seq<Event>, op: Op, ev: Event, b: Moment)
    requires Trail(trail, ops, evs) && Stepped(trail[|evs|], op, ev, b)
    ensures Trail(trail + [b], ops + [op], evs + [ev])
  {
    hide Stepped;
    var trail', ops', evs' := trail + [b], ops + [op], evs + [ev];
    forall i: nat | i < |evs'|
      ensures StepAt(trail', ops', evs', i)
    {
      if i < |evs| { assert StepAt(trail, ops, evs, i); }
    }
  }

  lemma SteppedAllowed(a: Moment, op: Op, ev: Event, b: Moment)
    requires Stepped(a, op, ev, b)
    ensures Allowed(a.View(), op, ev) && b.View() == Next(a.View(), op, ev)
  {
  }

  lemma OneMoreProcess(dirs: map<nat, nat>, id: nat, c: nat)
    requires id !in dirs
    ensures dirs[id := c].Values == dirs.Values + {c}
  {
    var dirs' := dirs[id := c];
    assert dirs'[id] == c;
    forall d <- dirs.Values ensures d in dirs'.Values {
      var p :| p in dirs && dirs[p] == d;
      assert dirs'[p] == d;
    }
  }

  lemma ProcessMoved(dirs: map<nat, nat>, next: nat, live: set<nat>, p: nat, d: nat)
    requires TableValid(dirs, next, live) && p in dirs && d !in live
    ensures dirs[p := d].Values == dirs.Values + {d} - {dirs[p]}
  {
    var dirs' := dirs[p := d];
    assert dirs'[p] == d;
    forall c <- dirs.Values | c != dirs[p] ensures c in dirs'.Values {
      var q :| q in dirs && dirs[q] == c;
      assert dirs'[q] == c;
    }
  }

  lemma OneProcessLess(dirs: map<nat, nat>, next: nat, live: set<nat>, p: nat)
    requires TableValid(dirs, next, live) && p in dirs
    ensures (dirs - {p}).Values == dirs.Values - {dirs[p]}
  {
    var dirs' := dirs - {p};
    forall c <- dirs.Values | c != dirs[p] ensures c in dirs'.Values {
      var q :| q in dirs && dirs[q] == c;
      assert dirs'[q] == c;
    }
  }

  /** A beginning of a clean file leaks nothing. */
  lemma CleanPrefix(image: Image, dir: nat, elf: seq<bv8>, done: seq<LoadPage>)
    requires (forall s <- image :: s.dir != dir) && done <= PagesToLoad(elf, SegmentCount(elf))
    ensures PagesDistinct(PagesToLoad(elf, SegmentCount(elf))) ==> NoLeaks(image, dir, done)
    ensures Clean(elf) ==> NoLeaks(image, dir, done)
  {
    hide PagesToLoad, SegmentCount, NoLeaks;
    LeakFree(image, dir, done);
    var pages := PagesToLoad(elf, SegmentCount(elf));
    var all := pages + [LoadPage(USER_STACK_VADDR, [])];
    if PagesDistinct(all) { DistinctPrefix(all, done); }
    if PagesDistinct(pages) { DistinctPrefix(pages, done); }
  }

  lemma DirsLive(dirs: map<nat, nat>, next: nat, live: set<nat>)
    requires TableValid(dirs, next, live)
    ensures next !in dirs && forall p <- dirs :: dirs[p] in live
  {
  }

  lemma RoomForFork(x: Memory, d: nat)
    requires ForkRoom(x, d)
    ensures Forkable(x, d) && |FreeOf(x)| > |TableIndexes(x.m, d)|
  {
  }

  lemma ForkAllowed(dirs: map<nat, nat>, image: Image, next: nat, p: nat)
    ensures ViewOf(dirs, image, next).next == next
    ensures p in dirs ==> Allowed(ViewOf(dirs, image, next), ForkOp(p), Child(next))
    ensures p !in dirs ==> p !in ViewOf(dirs, image, next).spaces
  {
  }

  lemma NoSuchProcess(e: Eager, op: Op)
    requires !op.SpawnOp? && !op.HeapOp?
    ensures op.pid !in e.spaces ==> Allowed(e, op, NoProcess) && Next(e, op, NoProcess) == e
  {
  }

  lemma FailureAllowed(e: Eager, op: Op)
    requires op.SpawnOp? || (op.ExecOp? && op.pid in e.spaces)
    ensures var ev := if IsElf32(op.elf) then OutOfFrames else Refused; Allowed(e, op, ev) && Next(e, op, ev) == e
  {
  }

  lemma StartAllowed(e: Eager, op: Op, stack: seq<bv8>)
    requires (op.SpawnOp? || (op.ExecOp? && op.pid in e.spaces)) && IsElf32(op.elf) && |stack| == FRAME_SIZE
    ensures Allowed(e, op, Started(if op.SpawnOp? then e.next else op.pid, EntryPoint(op.elf), stack))
  {
  }

  lemma NothingRun(a: Moment)
    ensures AllAllowed(a.View(), [], []) && After(a.View(), [], []) == a.View() && Trail([a], [], [])
  {
  }

  lemma AllowedMore(e: Eager, ops: seq<Op>, evs: seq<Event>, op: Op, ev: Event)
    requires |ops| == |evs| && AllAllowed(e, ops, evs) && Allowed(After(e, ops, evs), op, ev)
    ensures AllAllowed(e, ops + [op], evs + [ev])
    ensures After(e, ops + [op], evs + [ev]) == Next(After(e, ops, evs), op, ev)
  {
    var ops', evs' := ops + [op], evs + [ev];
    forall i | 0 <= i < |ops'|
      ensures Allowed(After(e, ops'[..i], evs'[..i]), ops'[i], evs'[i])
    {
      if i < |ops| {
        assert ops'[..i] == ops[..i] && evs'[..i] == evs[..i];
      } else {
        assert ops'[..i] == ops && evs'[..i] == evs;
      }
    }
    assert ops'[..|ops|] == ops && evs'[..|evs|] == evs;
  }

  /** A mapped page that cannot be stored to wants a copy that has no frame. */
  lemma WhyNotStored(x: Memory, s: Slot)
    requires Sound(x) && s in x.m.leaves && !Storable(x, s)
    ensures FreeOf(x) == {}
  {
    hide Sound;
    LeafFacts(x, s);
  }

  lemma NothingInNew(x: Memory)
    requires Sound(x)
    ensures forall s <- x.image :: s.dir in x.m.dirs
  {
    ImageKeys(x);
    forall s <- x.m.leaves ensures s.dir in x.m.dirs { TablesBelong(x, s); }
    hide Sound;
  }

  lemma SettledPrivate(x: Memory, dir: nat)
    requires Settled(x, dir)
    ensures Private(x.m, dir)
  {
  }

  lemma SettledTidy(x: Memory, dir: nat)
    requires Settled(x, dir)
    ensures Tidy(x)
  {
  }

  lemma NewSpaceIs(x0: Memory, x: Memory, dir: nat)
    requires NewSpace(x0, x, dir)
    ensures dir !in x0.m.dirs && x.m.dirs == x0.m.dirs + {dir}
  {
  }

  lemma DistinctPrefix(pages: seq<LoadPage>, done: seq<LoadPage>)
    requires PagesDistinct(pages) && done <= pages
    ensures PagesDistinct(done)
  {
    assert forall i :: 0 <= i < |done| ==> done[i] == pages[i];
  }
}
