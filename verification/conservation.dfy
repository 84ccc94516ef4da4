/** Where the frames go over whole runs: while processes share no pages the free frames are a matter of their pages and
    tables, so a run that leads back to the same processes gives back all that their memories did not grow by. */
module Conservation {
  import opened Pmm
  import opened PageTables
  import opened Paging
  import opened Fork
  import opened Teardown
  import opened Accounting
  import opened Elf
  import opened Processes

  // ---------------------------------------------------------------- what processes cost

  /** All pages of all processes, and all page tables they need. */
  function AllPages(spaces: map<nat, Space>): set<(nat, VPage)> { set p <- spaces, q <- spaces[p] :: (p, q) }
  function AllTables(spaces: map<nat, Space>): set<(nat, nat)> { set p <- spaces, q <- spaces[p] :: (p, q.pd) }

  /** A directory for every process, and a frame for every page and every table. */
  function FramesFor(spaces: map<nat, Space>): nat { |spaces| + |AllPages(spaces)| + |AllTables(spaces)| }

  function HeldFrames(held: Tally): set<nat> { set f: nat | f < MAX_FRAMES && held[f] > 0 }

  /** Two address spaces have no frame in common. */
  ghost predicate SpacesApart(m: Layout, d: nat, e: nat) {
    forall s <- m.leaves, t <- m.leaves :: s.dir == d && t.dir == e ==> m.leaves[s].frame != m.leaves[t].frame
  }

  /** No two processes share a page. */
  ghost predicate Separate(a: Moment) {
    forall p <- a.dirs, q <- a.dirs :: p != q ==> SpacesApart(a.x.m, a.dirs[p], a.dirs[q])
  }

  /** What failed spawns have left behind: directories, with their pages and tables. */
  function LeftPages(a: Moment): set<Slot> { set s <- a.x.m.leaves | s.dir in Ownerless(a) }
  function LeftTables(a: Moment): set<TableSlot> { set k <- a.x.m.tables | k.dir in Ownerless(a) }
  function LeftFrames(a: Moment): nat { |Ownerless(a)| + |LeftPages(a)| + |LeftTables(a)| }

  lemma {:induction false} InjectiveValues<A, B>(f: map<A, B>)
    requires forall x <- f, y <- f :: f[x] == f[y] ==> x == y
    ensures |f.Values| == |f|
    decreases |f|
  {
    if f == map[] {
      assert f.Values == {};
    } else {
      var x :| x in f;
      var g := f - {x};
      InjectiveValues(g);
      assert f.Keys == g.Keys + {x};
      forall v ensures v in f.Values <==> v in g.Values || v == f[x] {
        if v in f.Values { var y :| y in f && f[y] == v; assert y != x ==> y in g && g[y] == v; }
        if v in g.Values { var y :| y in g && g[y] == v; assert f[y] == v; }
      }
      assert f.Values == g.Values + {f[x]} && f[x] !in g.Values;
    }
  }

  /** What a map without repetitions leads to, and what is left, make up the whole. */
  lemma Parted<A, B>(f: map<A, B>, left: set<B>, all: set<B>)
    requires forall x <- f, y <- f :: f[x] == f[y] ==> x == y
    requires forall v <- f.Values :: v in all && v !in left
    requires forall v <- left :: v in all
    requires forall v <- all :: v in f.Values || v in left
    ensures |all| == |f.Keys| + |left|
  {
    InjectiveValues(f);
    assert all == f.Values + left && f.Values !! left;
  }

  /** Who owns a directory. */
  lemma OwnerOf(a: Moment, d: nat) returns (p: nat)
    requires d in a.dirs.Values
    ensures p in a.dirs && a.dirs[p] == d
  {
    p :| p in a.dirs && a.dirs[p] == d;
  }

  function PageSlots(dirs: map<nat, nat>, spaces: map<nat, Space>): map<(nat, VPage), Slot> {
    map k <- AllPages(spaces) | k.0 in dirs :: Slot(dirs[k.0], k.1)
  }

  function TableSlots(dirs: map<nat, nat>, spaces: map<nat, Space>): map<(nat, nat), TableSlot> {
    map k <- AllTables(spaces) | k.0 in dirs :: TableSlot(dirs[k.0], k.1)
  }

  lemma PagesCount(a: Moment)
    requires AtRest(a)
    ensures |a.x.m.leaves| == |AllPages(a.View().spaces)| + |LeftPages(a)|
  {
    hide SpaceOf, AllPages, OwnerlessPrivate;
    ImageKeys(a.x);
    forall s <- a.x.m.leaves ensures s.dir in a.x.m.dirs { TablesBelong(a.x, s); }
    hide Sound, Tidy;
    PagesMatch(a);
  }

  lemma PageSlotsFacts(a: Moment)
    requires TableValid(a.dirs, a.next, a.x.m.dirs)
    ensures var f := PageSlots(a.dirs, a.View().spaces);
      f.Keys == AllPages(a.View().spaces) && forall x <- f, y <- f :: f[x] == f[y] ==> x == y
  {
    hide SpaceOf;
  }

  lemma PagesMatch(a: Moment)
    requires TableValid(a.dirs, a.next, a.x.m.dirs) && a.x.image.Keys == a.x.m.leaves.Keys
    requires forall s <- a.x.m.leaves :: s.dir in a.x.m.dirs
    ensures |a.x.m.leaves| == |AllPages(a.View().spaces)| + |LeftPages(a)|
  {
    var f := PageSlots(a.dirs, a.View().spaces);
    PageSlotsFacts(a);
    hide LeftPages, PageSlots, AllPages, TableValid, ViewOf, SpaceOf, TablesUsed;
    forall s: Slot
      ensures s in f.Values <==> s in a.x.m.leaves && s.dir in a.dirs.Values
      ensures s in LeftPages(a) <==> s in a.x.m.leaves && s.dir !in a.dirs.Values
    {
      PageMatches(a, s);
    }
    Parted(f, LeftPages(a), a.x.m.leaves.Keys);
  }

  lemma PageMatches(a: Moment, s: Slot)
    requires a.x.image.Keys == a.x.m.leaves.Keys
    requires forall t <- a.x.m.leaves :: t.dir in a.x.m.dirs
    ensures s in PageSlots(a.dirs, a.View().spaces).Values <==> s in a.x.m.leaves && s.dir in a.dirs.Values
    ensures s in LeftPages(a) <==> s in a.x.m.leaves && s.dir !in a.dirs.Values
  {
    hide SpaceOf;
    var f := PageSlots(a.dirs, a.View().spaces);
    if s in f.Values {
      var k :| k in f && f[k] == s;
      InSpace(a.x.image, a.dirs[k.0], k.1);
    }
    if s in a.x.m.leaves && s.dir in a.dirs.Values {
      var p := OwnerOf(a, s.dir);
      InSpace(a.x.image, a.dirs[p], s.page);
      assert f[(p, s.page)] == s;
    }
  }

  /** A table is there exactly for the pages under it. */
  lemma TableOfPages(m: Layout, image: Image, d: nat, i: nat)
    requires TablesUsed(m) && (forall s <- m.leaves :: TableOf(s) in m.tables) && image.Keys == m.leaves.Keys
    ensures TableSlot(d, i) in m.tables <==> exists q <- SpaceOf(image, d) :: q.pd == i
  {
    hide SpaceOf;
    if TableSlot(d, i) in m.tables {
      assert HasPage(m, TableSlot(d, i));
      var s :| s in m.leaves && s.dir == d && s.page.pd == i;
      InSpace(image, d, s.page);
    }
    forall q <- SpaceOf(image, d) | q.pd == i
      ensures TableSlot(d, i) in m.tables
    {
      InSpace(image, d, q);
    }
  }

  lemma TablesCount(a: Moment)
    requires AtRest(a)
    ensures |a.x.m.tables| == |AllTables(a.View().spaces)| + |LeftTables(a)|
  {
    hide SpaceOf, HeldApart, OwnerlessPrivate;
    ImageKeys(a.x);
    RowIsDone(a.x, 0);
    TableBounds(a.x);
    hide Sound;
    TablesMatch(a);
  }

  lemma TableSlotsFacts(a: Moment)
    requires TableValid(a.dirs, a.next, a.x.m.dirs)
    ensures var f := TableSlots(a.dirs, a.View().spaces);
      f.Keys == AllTables(a.View().spaces) && forall x <- f, y <- f :: f[x] == f[y] ==> x == y
  {
    hide SpaceOf;
  }

  lemma TablesMatch(a: Moment)
    requires TablesUsed(a.x.m) && TableValid(a.dirs, a.next, a.x.m.dirs)
    requires (forall s <- a.x.m.leaves :: TableOf(s) in a.x.m.tables) && a.x.image.Keys == a.x.m.leaves.Keys
    requires forall k <- a.x.m.tables :: k.dir in a.x.m.dirs
    ensures |a.x.m.tables| == |AllTables(a.View().spaces)| + |LeftTables(a)|
  {
    var f := TableSlots(a.dirs, a.View().spaces);
    TableSlotsFacts(a);
    hide LeftTables, TableSlots, AllTables, TableValid, ViewOf, SpaceOf, TablesUsed;
    forall k: TableSlot
      ensures k in f.Values <==> k in a.x.m.tables && k.dir in a.dirs.Values
      ensures k in LeftTables(a) <==> k in a.x.m.tables && k.dir !in a.dirs.Values
    {
      TableMatches(a, k);
    }
    Parted(f, LeftTables(a), a.x.m.tables.Keys);
  }

  lemma TableMatches(a: Moment, k: TableSlot)
    requires TablesUsed(a.x.m) && a.x.image.Keys == a.x.m.leaves.Keys
    requires (forall s <- a.x.m.leaves :: TableOf(s) in a.x.m.tables) && forall l <- a.x.m.tables :: l.dir in a.x.m.dirs
    ensures k in LeftTables(a) <==> k in a.x.m.tables && k.dir !in a.dirs.Values
    ensures k in TableSlots(a.dirs, a.View().spaces).Values <==> k in a.x.m.tables && k.dir in a.dirs.Values
  {
    hide SpaceOf, TablesUsed;
    var f := TableSlots(a.dirs, a.View().spaces);
    TableOfPages(a.x.m, a.x.image, k.dir, k.pd);
    if k in f.Values {
      var l :| l in f && f[l] == k;
      var q :| q in a.View().spaces[l.0] && (l.0, q.pd) == l;
    }
    if k in a.x.m.tables && k.dir in a.dirs.Values {
      var p := OwnerOf(a, k.dir);
      var q :| q in SpaceOf(a.x.image, k.dir) && q.pd == k.pd;
      assert q in a.View().spaces[p] && (p, q.pd) in AllTables(a.View().spaces);
      assert f[(p, k.pd)] == k;
    }
  }

  lemma HeldOnlyIs(x: Memory)
    requires Sound(x) && Tidy(x)
    ensures HeldOnly(x) == HeldFrames(x.held)
  {
    hide KernelHalf, Agrees, Balanced, CopyOnWrite, Shows, Uncounted, TablesUsed;
  }

  /** Pages of processes that share none lie in frames of their own; so do those left behind. */
  lemma SeparateInjective(a: Moment)
    requires AtRest(a) && Separate(a)
    ensures forall s <- a.x.m.leaves, t <- a.x.m.leaves :: a.x.m.leaves[s].frame == a.x.m.leaves[t].frame ==> s == t
  {
    hide Sound, Tidy, SpacesApart;
    forall s <- a.x.m.leaves, t <- a.x.m.leaves | a.x.m.leaves[s].frame == a.x.m.leaves[t].frame
      ensures s == t
    {
      TablesBelong(a.x, s);
      TablesBelong(a.x, t);
      if s.dir in Ownerless(a) { PrivateAlone(a.x, s, t); }
      else if t.dir in Ownerless(a) { PrivateAlone(a.x, t, s); }
      else {
        if s.page != t.page { SameFrameSamePage(a.x, s, t); }
        var p := OwnerOf(a, s.dir);
        var q := OwnerOf(a, t.dir);
        ApartFrames(a.x.m, s, t);
      }
    }
  }

  lemma PrivateAlone(x: Memory, s: Slot, t: Slot)
    requires Sound(x) && s in x.m.leaves && Private(x.m, s.dir) && t in x.m.leaves && x.m.leaves[s].frame == x.m.leaves[t].frame
    ensures s == t
  {
    hide KernelHalf, Agrees, Balanced, Shows, Uncounted;
    assert t in LeafUses(x.m, x.m.leaves[s].frame);
  }

  lemma ApartFrames(m: Layout, s: Slot, t: Slot)
    requires s in m.leaves && t in m.leaves && m.leaves[s].frame == m.leaves[t].frame
    ensures !SpacesApart(m, s.dir, t.dir)
  {
  }

  /** What processes that share no page cost, together with what failed spawns have left behind. */
  lemma SeparateCost(a: Moment)
    requires AtRest(a) && Separate(a)
    ensures |FreeOf(a.x)| + FramesFor(a.View().spaces) + LeftFrames(a) + |HeldFrames(a.x.held)| + |a.x.reserved| == MAX_FRAMES
  {
    hide Sound, Tidy, FreeOf, HeldOnly, HeldFrames, AllPages, AllTables, LeftPages, LeftTables, SpaceOf, SpacesApart, OwnerlessPrivate;
    SeparateInjective(a);
    UnsharedCost(a.x);
    HeldOnlyIs(a.x);
    PagesCount(a);
    TablesCount(a);
    InjectiveValues(a.dirs);
    assert a.View().spaces.Keys == a.dirs.Keys;
    forall d <- a.dirs.Values ensures d in a.x.m.dirs { var p := OwnerOf(a, d); }
    assert a.x.m.dirs == a.dirs.Values + Ownerless(a) && a.dirs.Values !! Ownerless(a);
  }

  // ---------------------------------------------------------------- whole runs

  lemma TrailPrefix(trail: seq<Moment>, ops: seq<Op>, evs: seq<Event>)
    requires Trail(trail, ops, evs) && evs != []
    ensures Trail(trail[..|evs|], ops[..|evs| - 1], evs[..|evs| - 1])
    ensures Stepped(trail[|evs| - 1], ops[|evs| - 1], evs[|evs| - 1], trail[|evs|])
  {
    hide Stepped;
    var n := |evs| - 1;
    assert StepAt(trail, ops, evs, n);
    forall i: nat | i < n ensures StepAt(trail[..|evs|], ops[..n], evs[..n], i) { assert StepAt(trail, ops, evs, i); }
  }

  /** How many spawns of a run have failed. */
  function Abandoned(ops: seq<Op>, evs: seq<Event>): nat
    requires |ops| == |evs|
  {
    if evs == [] then 0
    else Abandoned(ops[..|ops| - 1], evs[..|evs| - 1]) + if Abandons(ops[|ops| - 1], evs[|evs| - 1]) then 1 else 0
  }

  /** What is left behind never comes back, and a failed spawn adds to it. */
  lemma LeftGrows(a: Moment, op: Op, ev: Event, b: Moment)
    requires Leftovers(a, op, ev, b)
    ensures |Ownerless(b)| == |Ownerless(a)| + if Abandons(op, ev) then 1 else 0
    ensures LeftFrames(b) >= LeftFrames(a) + if Abandons(op, ev) then 1 else 0
    ensures !Abandons(op, ev) ==> LeftFrames(b) == LeftFrames(a)
  {
    LeftKept(a, op, ev, b);
    hide KeptAt, FreeOf, Private, LeftPages, LeftTables;
    if Abandons(op, ev) {
      var d :| d !in a.x.m.dirs && Ownerless(b) == Ownerless(a) + {d} && Private(b.x.m, d);
      assert d !in Ownerless(a);
      Smaller(LeftPages(a), LeftPages(b));
      Smaller(LeftTables(a), LeftTables(b));
    }
  }

  lemma LeftKept(a: Moment, op: Op, ev: Event, b: Moment)
    requires Leftovers(a, op, ev, b)
    ensures LeftPages(a) <= LeftPages(b) && LeftTables(a) <= LeftTables(b)
    ensures !Abandons(op, ev) ==> LeftPages(a) == LeftPages(b) && LeftTables(a) == LeftTables(b)
  {
    hide KeptAt, FreeOf, Private;
    forall s: Slot | s.dir in Ownerless(a)
      ensures s in b.x.m.leaves <==> s in a.x.m.leaves
    {
      LeafKept(a.x.m, b.x.m, s);
    }
    forall k: TableSlot | k.dir in Ownerless(a)
      ensures k in b.x.m.tables <==> k in a.x.m.tables
    {
      TableKept(a.x.m, b.x.m, k);
    }
  }

  lemma LeafKept(m: Layout, m': Layout, s: Slot)
    requires KeptAt(m, m', s.dir)
    ensures s in m'.leaves <==> s in m.leaves
  {
    assert s in LeavesAt(m', s.dir) <==> s in LeavesAt(m, s.dir);
  }

  lemma TableKept(m: Layout, m': Layout, k: TableSlot)
    requires KeptAt(m, m', k.dir)
    ensures k in m'.tables <==> k in m.tables
  {
    assert k in TablesAt(m', k.dir) <==> k in TablesAt(m, k.dir);
  }

  /** What adds up over the steps of a run. */
  lemma {:induction false} Followed(trail: seq<Moment>, ops: seq<Op>, evs: seq<Event>)
    requires Trail(trail, ops, evs)
    ensures trail[|evs|].View() == After(trail[0].View(), ops, evs)
    ensures trail[|evs|].x.reserved == trail[0].x.reserved
    ensures (forall op <- ops :: LeakFreeOp(op)) ==> trail[|evs|].x.held == trail[0].x.held
    ensures |Ownerless(trail[|evs|])| == |Ownerless(trail[0])| + Abandoned(ops, evs)
    ensures LeftFrames(trail[|evs|]) >= LeftFrames(trail[0]) + Abandoned(ops, evs)
    ensures (forall i :: 0 <= i < |evs| ==> !Abandons(ops[i], evs[i])) ==> LeftFrames(trail[|evs|]) == LeftFrames(trail[0])
  {
    hide Leftovers, LeakFreeOp, Allowed, Next, Scarce, ViewOf, Ownerless, LeftFrames, StackLeft, HeapHeld, Inherited;
    if evs != [] {
      TrailPrefix(trail, ops, evs);
      Followed(trail[..|evs|], ops[..|evs| - 1], evs[..|evs| - 1]);
      LeftGrows(trail[|evs| - 1], ops[|evs| - 1], evs[|evs| - 1], trail[|evs|]);
      hide Trail;
      assert ops[|evs| - 1] in ops;
      assert forall op <- ops[..|evs| - 1] :: op in ops;
    }
  }

  /** How many pages the heap has grown by. */
  function HeapPages(ops: seq<Op>): nat {
    if ops == [] then 0 else HeapPages(ops[..|ops| - 1]) + if ops[|ops| - 1].HeapOp? then 1 else 0
  }

  lemma HeldGrows(a: Moment, op: Op, ev: Event, b: Moment)
    requires AtRest(a) && Stepped(a, op, ev, b) && (LeakFreeOp(op) || op.HeapOp?)
    ensures |HeldFrames(b.x.held)| == |HeldFrames(a.x.held)| + if op.HeapOp? then 1 else 0
  {
    hide Sound, Tidy, Next, Leftovers, StackLeft, Scarce, Inherited, ViewOf, OwnerlessPrivate;
    if op.HeapOp? {
      var n :| n in FreeOf(a.x) && n < MAX_FRAMES && b.x.held == Hold(a.x.held, n);
      FreeUnheld(a.x, n);
      assert HeldFrames(b.x.held) == HeldFrames(a.x.held) + {n};
    }
  }

  lemma {:induction false} HeldThrough(trail: seq<Moment>, ops: seq<Op>, evs: seq<Event>)
    requires Trail(trail, ops, evs) && (forall a <- trail :: AtRest(a)) && forall op <- ops :: LeakFreeOp(op) || op.HeapOp?
    ensures |HeldFrames(trail[|evs|].x.held)| == |HeldFrames(trail[0].x.held)| + HeapPages(ops)
  {
    hide AtRest, Stepped, LeakFreeOp, HeldFrames;
    if evs != [] {
      var n := |evs| - 1;
      TrailPrefix(trail, ops, evs);
      assert trail[n] in trail && ops[n] in ops;
      assert (forall a <- trail[..n + 1] :: a in trail) && forall op <- ops[..n] :: op in ops;
      HeldThrough(trail[..n + 1], ops[..n], evs[..n]);
      HeldGrows(trail[n], ops[n], evs[n], trail[n + 1]);
    }
  }

  predicate ExecOf(op: Op, p: nat) { op.ExecOp? && op.pid == p }

  /** Without an exec of its own a process keeps the pages it has, as long as it is there. */
  lemma {:induction false} PagesKept(e: Eager, ops: seq<Op>, evs: seq<Event>, p: nat)
    requires |ops| == |evs| && p < e.next && p in After(e, ops, evs).spaces
    requires forall op <- ops :: !ExecOf(op, p)
    ensures p in e.spaces && After(e, ops, evs).spaces[p].Keys == e.spaces[p].Keys
    ensures p < After(e, ops, evs).next
  {
    if ops != [] {
      var before, op := After(e, ops[..|ops| - 1], evs[..|evs| - 1]), ops[|ops| - 1];
      assert op in ops && forall o <- ops[..|ops| - 1] :: o in ops;
      NextGrows(e, ops[..|ops| - 1], evs[..|evs| - 1]);
      assert p in before.spaces;
      PagesKept(e, ops[..|ops| - 1], evs[..|evs| - 1], p);
    }
  }

  lemma {:induction false} NextGrows(e: Eager, ops: seq<Op>, evs: seq<Event>)
    requires |ops| == |evs|
    ensures e.next <= After(e, ops, evs).next
  {
    if ops != [] { NextGrows(e, ops[..|ops| - 1], evs[..|evs| - 1]); }
  }

  // ---------------------------------------------------------------- what is shared over a run

  lemma ApartKept(m: Layout, m': Layout, d: nat, e: nat, d': nat, e': nat)
    requires d' != e' && Inherits(m, m', d') && Inherits(m, m', e') && SpacesApart(m, d, e)
    requires d' == d || forall s <- m.leaves :: s.dir != d'
    requires e' == e || forall s <- m.leaves :: s.dir != e'
    ensures SpacesApart(m', d', e')
  {
    forall s <- m'.leaves, t <- m'.leaves | s.dir == d' && t.dir == e'
      ensures m'.leaves[s].frame != m'.leaves[t].frame
    {
      assert s in LeafUses(m', m'.leaves[s].frame) && t in LeafUses(m', m'.leaves[t].frame);
    }
  }

  /** Two processes that share no page share none after an operation, if both are still there. */
  lemma SteppedApart(a: Moment, op: Op, ev: Event, b: Moment, p: nat, q: nat)
    requires AtRest(a) && AtRest(b) && Stepped(a, op, ev, b) && p != q
    requires p in a.dirs && q in a.dirs && SpacesApart(a.x.m, a.dirs[p], a.dirs[q]) && p in b.dirs && q in b.dirs
    ensures SpacesApart(b.x.m, b.dirs[p], b.dirs[q])
  {
    hide Allowed, Next, Leftovers, StackLeft, HeapHeld, Scarce, LeakFreeOp, ViewOf, OwnerlessPrivate;
    forall s <- a.x.m.leaves ensures s.dir in a.x.m.dirs { TablesBelong(a.x, s); }
    hide Sound, Tidy, SpacesApart, Inherits;
    ApartKept(a.x.m, b.x.m, a.dirs[p], a.dirs[q], b.dirs[p], b.dirs[q]);
  }

  lemma EagerThere(e: Eager, op: Op, ev: Event, p: nat)
    requires Allowed(e, op, ev) && p < e.next && p in Next(e, op, ev).spaces
    ensures p in e.spaces
  {
    hide ProgramSpace, PokeSpace, IsElf32, EntryPoint;
  }

  lemma ViewKeys(a: Moment)
    ensures a.View().spaces.Keys == a.dirs.Keys && a.View().next == a.next
  {
    hide SpaceOf;
  }

  /** A process with an identifier given out before an operation was there before it. */
  lemma ThereBefore(a: Moment, op: Op, ev: Event, b: Moment, p: nat)
    requires Stepped(a, op, ev, b) && p < a.next && p in b.dirs
    ensures p in a.dirs
  {
    SteppedAllowed(a, op, ev, b);
    hide Stepped, ViewOf, Allowed, Next;
    ViewKeys(a);
    ViewKeys(b);
    EagerThere(a.View(), op, ev, p);
  }

  lemma {:induction false} ApartThrough(trail: seq<Moment>, ops: seq<Op>, evs: seq<Event>, p: nat, q: nat)
    requires Trail(trail, ops, evs) && (forall a <- trail :: AtRest(a)) && p != q
    requires p in trail[0].dirs && q in trail[0].dirs && SpacesApart(trail[0].x.m, trail[0].dirs[p], trail[0].dirs[q])
    requires p in trail[|evs|].dirs && q in trail[|evs|].dirs
    ensures SpacesApart(trail[|evs|].x.m, trail[|evs|].dirs[p], trail[|evs|].dirs[q])
  {
    hide SpacesApart, Stepped;
    if evs != [] {
      var n := |evs| - 1;
      TrailPrefix(trail, ops, evs);
      Followed(trail[..n + 1], ops[..n], evs[..n]);
      NextGrows(trail[0].View(), ops[..n], evs[..n]);
      assert trail[n] in trail && trail[n + 1] in trail && trail[0] in trail;
      IdsGiven(trail[0]);
      ThereBefore(trail[n], ops[n], evs[n], trail[n + 1], p);
      ThereBefore(trail[n], ops[n], evs[n], trail[n + 1], q);
      assert forall a <- trail[..n + 1] :: a in trail;
      ApartThrough(trail[..n + 1], ops[..n], evs[..n], p, q);
      SteppedApart(trail[n], ops[n], evs[n], trail[n + 1], p, q);
    }
  }

  lemma IdsGiven(a: Moment)
    requires AtRest(a)
    ensures forall p <- a.dirs :: p < a.next
  {
    hide Sound, Tidy;
  }

  // ---------------------------------------------------------------- conservation

  lemma SeparateThrough(trail: seq<Moment>, ops: seq<Op>, evs: seq<Event>)
    requires Trail(trail, ops, evs) && (forall a <- trail :: AtRest(a))
    requires Separate(trail[0]) && trail[|evs|].dirs.Keys == trail[0].dirs.Keys
    ensures Separate(trail[|evs|])
  {
    hide AtRest, SpacesApart, StepAt;
    forall p <- trail[|evs|].dirs, q <- trail[|evs|].dirs | p != q
      ensures SpacesApart(trail[|evs|].x.m, trail[|evs|].dirs[p], trail[|evs|].dirs[q])
    {
      ApartThrough(trail, ops, evs, p, q);
    }
  }

  /** Conservation: over any run that starts with processes that share no page and ends with the same processes, the free
      frames, those their memories need, those that failed spawns have left behind, and those held otherwise are the
      same in sum. What is left behind grows by a directory for every failed spawn, and by nothing else. */
  lemma Conserved(trail: seq<Moment>, ops: seq<Op>, evs: seq<Event>)
    requires Trail(trail, ops, evs) && (forall a <- trail :: AtRest(a))
    requires Separate(trail[0]) && trail[|evs|].dirs.Keys == trail[0].dirs.Keys
    ensures var a, b := trail[0], trail[|evs|];
      |FreeOf(b.x)| + FramesFor(b.View().spaces) + LeftFrames(b) + |HeldFrames(b.x.held)|
      == |FreeOf(a.x)| + FramesFor(a.View().spaces) + LeftFrames(a) + |HeldFrames(a.x.held)|
    ensures |Ownerless(trail[|evs|])| == |Ownerless(trail[0])| + Abandoned(ops, evs)
    ensures LeftFrames(trail[|evs|]) >= LeftFrames(trail[0]) + Abandoned(ops, evs)
    ensures (forall i :: 0 <= i < |evs| ==> !Abandons(ops[i], evs[i])) ==> LeftFrames(trail[|evs|]) == LeftFrames(trail[0])
    ensures (forall op <- ops :: LeakFreeOp(op)) ==> trail[|evs|].x.held == trail[0].x.held
    ensures (forall op <- ops :: LeakFreeOp(op) || op.HeapOp?) ==>
      |HeldFrames(trail[|evs|].x.held)| == |HeldFrames(trail[0].x.held)| + HeapPages(ops)
    ensures (forall op <- ops, p <- trail[0].dirs :: !ExecOf(op, p)) ==>
      FramesFor(trail[|evs|].View().spaces) == FramesFor(trail[0].View().spaces)
  {
    hide Sound, Tidy, FreeOf, HeldFrames, SpaceOf, After, StepAt, LeakFreeOp, Abandons, ExecOf, Separate, FramesFor, LeftFrames, Ownerless;
    SeparateThrough(trail, ops, evs);
    Followed(trail, ops, evs);
    assert trail[0] in trail && trail[|evs|] in trail;
    SeparateCost(trail[0]);
    SeparateCost(trail[|evs|]);
    if forall op <- ops :: LeakFreeOp(op) || op.HeapOp? { HeldThrough(trail, ops, evs); }
    if forall op <- ops, p <- trail[0].dirs :: !ExecOf(op, p) {
      IdsGiven(trail[0]);
      forall p <- trail[0].dirs
        ensures trail[|evs|].View().spaces[p].Keys == trail[0].View().spaces[p].Keys
      {
        PagesKept(trail[0].View(), ops, evs, p);
      }
      SameFrames(trail[0].View().spaces, trail[|evs|].View().spaces);
    }
  }

  lemma SameFrames(spaces: map<nat, Space>, spaces': map<nat, Space>)
    requires spaces.Keys == spaces'.Keys && forall p <- spaces :: spaces[p].Keys == spaces'[p].Keys
    ensures FramesFor(spaces) == FramesFor(spaces')
  {
    assert AllPages(spaces) == AllPages(spaces');
    assert AllTables(spaces) == AllTables(spaces');
    assert |spaces| == |spaces.Keys| && |spaces'| == |spaces'.Keys|;
  }

  predicate ForksOnly(op: Op) { op.ForkOp? || op.LoadOp? || op.StoreOp? || op.PokeOp? || op.ReapOp? }

  /** Reaping all forked processes gives every frame back, whatever copies they and their parents made, and whoever
      forked whom. */
  lemma ReapingReturnsFrames(trail: seq<Moment>, ops: seq<Op>, evs: seq<Event>)
    requires Trail(trail, ops, evs) && (forall a <- trail :: AtRest(a))
    requires Separate(trail[0]) && trail[|evs|].dirs.Keys == trail[0].dirs.Keys
    requires forall op <- ops :: ForksOnly(op)
    ensures |FreeOf(trail[|evs|].x)| == |FreeOf(trail[0].x)|
  {
    hide AtRest, Separate, StepAt, FreeOf, Clean, LeftFrames, Ownerless, Abandoned;
    forall i | 0 <= i < |evs| ensures !Abandons(ops[i], evs[i]) { assert ops[i] in ops; }
    assert forall op <- ops :: LeakFreeOp(op) && forall p: nat :: !ExecOf(op, p);
    Conserved(trail, ops, evs);
  }

  /** A run command whose file does not load always costs frames: one, if the file is refused, and all that were free, if
      they did not suffice. Its directory is nobody's afterwards. */
  lemma FailedRunCosts(a: Moment, elf: seq<bv8>, ev: Event, b: Moment)
    requires Stepped(a, SpawnOp(elf), ev, b) && !ev.Started?
    ensures |FreeOf(b.x)| < |FreeOf(a.x)| && |Ownerless(b)| == |Ownerless(a)| + 1
    ensures !IsElf32(elf) ==> ev.Refused? && |FreeOf(b.x)| == |FreeOf(a.x)| - 1
    ensures IsElf32(elf) ==> ev.OutOfFrames? && FreeOf(b.x) == {} && |FreeOf(a.x)| < FramesToBuild(elf)
  {
    hide FreeOf, IsElf32, FramesToBuild, Ownerless, StackLeft, LeakFreeOp, Next, KeepsOwnerless;
    LeftGrows(a, SpawnOp(elf), ev, b);
    assert FreeOf(a.x) != {};
  }
}
