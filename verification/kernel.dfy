/** Tasks and their memory together: fork, exit, wait and reaping over the task ring and the address spaces at once, as
    kernel/syscall.c and kernel/task.c join them. Task 0 is the kernel's own; every other task is a program. */
module Kernel {
  import opened Options
  import Tasks
  import opened Pmm
  import opened PageTables
  import opened Paging
  import Sharing = Fork
  import UserAccess
  import opened Accounting
  import opened KernelStores
  import opened Processes
  import Conservation
  import Scheduler

  datatype State = State(tasks: Tasks.System, memory: Moment)

  datatype Call =
    | Preempt
    | Exit(code: int)
    | Kill(id: nat, code: int)
    | WaitAny(status: nat)  // where the exit code goes; 0 for nowhere
    | WaitFor(pid: nat)
    | Fork
    | Load(virt: nat)
    | Store(virt: nat, b: bv8)
    | Exec(elf: seq<bv8>)
    | Run(elf: seq<bv8>)
    | Grow(heapEnd: nat)

  function Ids(ring: seq<Tasks.Task>): set<nat> { set t <- ring :: t.id }

  /** The calls that the task ring answers alone, and those that reap. */
  predicate RingOnly(call: Call) { call.Preempt? || call.Exit? || call.Kill? }
  predicate Waits(call: Call) { call.WaitAny? || call.WaitFor? }

  function TaskEvent(call: Call): Tasks.Event
    requires RingOnly(call) || Waits(call)
  {
    match call
    case Preempt => Tasks.Yield
    case Exit(code) => Tasks.Exit(code)
    case Kill(id, code) => Tasks.Terminate(id, code)
    case WaitAny(_) => Tasks.WaitAny
    case WaitFor(pid) => Tasks.WaitFor(pid)
  }

  /** What a call of a task asks of the address spaces. */
  function MemoryOp(self: nat, call: Call): Op
    requires !RingOnly(call) && !Waits(call)
  {
    match call
    case Fork => ForkOp(self)
    case Load(virt) => LoadOp(self, virt)
    case Store(virt, b) => StoreOp(self, virt, b)
    case Exec(elf) => ExecOp(self, elf)
    case Run(elf) => SpawnOp(elf)
    case Grow(heapEnd) => HeapOp(heapEnd)
  }

  /** The task that runs. */
  function Runner(k: State): nat { if k.tasks.ring == [] then 0 else k.tasks.ring[0].id }

  /** What the running task can call: nothing else while it is inside a wait call, programs' calls by programs only, and the
      run command by the shell only. */
  predicate CanCall(k: State, call: Call) {
    && k.tasks.ring != []
    && if RingOnly(call) || Waits(call)
       then Tasks.Allowed(k.tasks, TaskEvent(call)) && (call.WaitAny? && call.status != 0 ==> Runner(k) != 0)
       else
         && var self := k.tasks.ring[0];
         && self.state != Tasks.Zombie && self.waiting == Tasks.No && ValidOp(MemoryOp(self.id, call))
         && (call.Run? ==> self.id == 0) && (call.Fork? || call.Load? || call.Store? || call.Exec? ==> self.id != 0)
  }

  /** The task reaped last. */
  function JustReaped(s: Tasks.System): nat
    requires s.reaped != []
  {
    s.reaped[|s.reaped| - 1].pid
  }

  /** One task has left the ring, reaped by the running one. */
  ghost predicate HasReaped(s: Tasks.System, s': Tasks.System) {
    && |s'.reaped| == |s.reaped| + 1 && s'.reaped[..|s.reaped|] == s.reaped
    && JustReaped(s') in Ids(s.ring) && Ids(s'.ring) == Ids(s.ring) - {JustReaped(s')}
    && s.ring != [] && JustReaped(s') != s.ring[0].id
  }

  predicate Reaps(k: State, k': State) { k'.tasks.reaped != k.tasks.reaped && k'.tasks.reaped != [] }

  /** The exit code that the reaping returns, as the four bytes that go to memory. */
  function ExitByte(k': State, i: nat): bv8
    requires k'.tasks.reaped != []
  {
    WordByte(k'.tasks.reaped[|k'.tasks.reaped| - 1].code % 0x1_0000_0000, i)
  }

  function ExitBytes(k': State): (bytes: seq<bv8>)
    requires k'.tasks.reaped != []
    ensures |bytes| == 4
  {
    [ExitByte(k', 0), ExitByte(k', 1), ExitByte(k', 2), ExitByte(k', 3)]
  }

  /** The memory of the running task. */
  function RunnerSpace(k: State): Space {
    if Runner(k) in k.memory.View().spaces then k.memory.View().spaces[Runner(k)] else map[]
  }

  predicate MappedAt(space: Space, virt: nat, j: nat) { PageOf(virt + j) in space }

  /** The first of four bytes whose page is not mapped, or 4. */
  function FirstMissing(space: Space, virt: nat, j: nat): (i: nat)
    requires j <= 4
    ensures j <= i <= 4 && (i < 4 ==> !MappedAt(space, virt, i))
    ensures forall l: nat :: j <= l < i ==> MappedAt(space, virt, l)
    decreases 4 - j
  {
    if j == 4 || !MappedAt(space, virt, j) then j else FirstMissing(space, virt, j + 1)
  }

  function PokeOps(p: nat, virt: nat, bytes: seq<bv8>): (ops: seq<Op>)
    ensures |ops| == |bytes|
  {
    seq(|bytes|, i requires 0 <= i < |bytes| => PokeOp(p, virt + i, bytes[i]))
  }

  /** The store of the exit code, by the kernel through the caller's mapping: all four bytes, or a fault at the first whose
      page is not there. */
  function StatusOps(k: State, call: Call, k': State): seq<Op>
    requires k'.tasks.reaped != []
  {
    if !call.WaitAny? || call.status == 0 then []
    else
      var j := FirstMissing(RunnerSpace(k), call.status, 0);
      if j < 4 then [PokeOp(Runner(k), call.status + j, ExitByte(k', j))] else PokeOps(Runner(k), call.status, ExitBytes(k'))
  }

  /** What a call comes to in the address spaces, one operation after the other: a task's memory goes when it is reaped. */
  function OpsOf(k: State, call: Call, k': State): seq<Op> {
    if RingOnly(call) then []
    else if !Waits(call) then [MemoryOp(Runner(k), call)]
    else if !Reaps(k, k') then []
    else [ReapOp(JustReaped(k'.tasks))] + StatusOps(k, call, k')
  }

  /** The exit code's address is checked by nobody: one in the kernel's own half would be stored to there. */
  predicate UserStatus(call: Call) {
    call.WaitAny? && call.status != 0 ==> PageOf(call.status).pd >= IDENTITY_TABLES && call.status + 3 < 0x1_0000_0000
  }

  /** What a call does to the ring: a successful fork and a successful run command create a task. */
  function TasksAfter(k: State, call: Call, evs: seq<Event>): Tasks.System
    requires k.tasks.ring != []
  {
    if RingOnly(call) || Waits(call) then Tasks.Next(k.tasks, TaskEvent(call))
    else if evs != [] && (call.Fork? || call.Run?) && (evs[0].Child? || evs[0].Started?) then Tasks.Next(k.tasks, Tasks.Create)
    else k.tasks
  }

  /** One moment leads to another by operations, with all at rest in between. */
  ghost predicate Leads(a: Moment, ops: seq<Op>, evs: seq<Event>, b: Moment) {
    exists trail: seq<Moment> :: LeadsBy(trail, a, ops, evs, b)
  }

  ghost predicate LeadsBy(trail: seq<Moment>, a: Moment, ops: seq<Op>, evs: seq<Event>, b: Moment) {
    Trail(trail, ops, evs) && trail[0] == a && trail[|evs|] == b && forall m <- trail :: AtRest(m)
  }

  /** One call, with the events of its operations on the address spaces. */
  ghost predicate Calls(k: State, call: Call, evs: seq<Event>, k': State) {
    && CanCall(k, call) && k'.tasks == TasksAfter(k, call, evs) && (Reaps(k, k') ==> UserStatus(call))
    && Leads(k.memory, OpsOf(k, call, k'), evs, k'.memory)
  }

  ghost predicate WasReaped(s: Tasks.System, id: nat) { exists r <- s.reaped :: r.pid == id }

  /** Tasks and memory belong together: every task ever created is in the ring or was reaped, and every task in the ring
      other than the kernel's own has an address space. */
  ghost predicate Matched(k: State) {
    && Tasks.Sound(k.tasks) && AtRest(k.memory) && k.memory.next == k.tasks.nextId
    && k.memory.dirs.Keys == Ids(k.tasks.ring) - {0}
    && (forall id: nat :: id in Ids(k.tasks.ring) <==> id < k.tasks.nextId && !WasReaped(k.tasks, id))
    && 0 in Ids(k.tasks.ring) && 0 !in k.tasks.parents
  }

  // ---------------------------------------------------------------- who is in the ring

  lemma IdsUpdated(ring: seq<Tasks.Task>, k: nat, t: Tasks.Task)
    requires k < |ring| && t.id == ring[k].id
    ensures Ids(ring[k := t]) == Ids(ring)
  {
    var r := ring[k := t];
    forall id ensures id in Ids(r) <==> id in Ids(ring) {
      if id in Ids(r) { var i :| 0 <= i < |r| && r[i].id == id; assert ring[i] in ring; }
      if id in Ids(ring) { var i :| 0 <= i < |r| && ring[i].id == id; assert r[i] in r; }
    }
  }

  lemma IdsSwitched(ring: seq<Tasks.Task>)
    requires ring != []
    ensures Ids(Tasks.Switched(ring)) == Ids(ring)
  {
    var k := Tasks.NextReady(ring, 1);
    assert ring == ring[..k] + ring[k..];
    assert forall t :: t in Tasks.Switched(ring) <==> t in ring;
  }

  lemma IdsUnblocked(ring: seq<Tasks.Task>, id: nat)
    ensures Ids(Tasks.Unblocked(ring, id)) == Ids(ring)
  {
    var k := Tasks.Find(ring, id, 0);
    if k < |ring| { IdsUpdated(ring, k, Tasks.Woken(ring[k])); }
  }

  lemma IdsEnded(s: Tasks.System, j: nat, code: int)
    requires j < |s.ring|
    ensures Ids(Tasks.Ended(s, j, code).ring) == Ids(s.ring)
  {
    var t := s.ring[j].(state := Tasks.Zombie, exitCode := code);
    IdsUpdated(s.ring, j, t);
    if t.parent.Some? { IdsUnblocked(s.ring[j := t], t.parent.value); }
  }

  lemma IdsInserted(ring: seq<Tasks.Task>, t: Tasks.Task)
    requires ring != []
    ensures Ids(Tasks.Inserted(ring, t)) == Ids(ring) + {t.id}
  {
    assert ring == [ring[0]] + ring[1..];
    assert forall u :: u in Tasks.Inserted(ring, t) <==> u in ring || u == t;
  }

  lemma IdsWithout(ring: seq<Tasks.Task>, j: nat)
    requires Tasks.Distinct(ring) && j < |ring|
    ensures Ids(Tasks.Without(ring, j)) == Ids(ring) - {ring[j].id}
  {
    var r := Tasks.Without(ring, j);
    forall id ensures id in Ids(r) <==> id in Ids(ring) && id != ring[j].id {
      if id in Ids(r) { var i :| 0 <= i < |r| && r[i].id == id; assert r[i] == ring[if i < j then i else i + 1]; }
      if id in Ids(ring) && id != ring[j].id {
        var i :| 0 <= i < |ring| && ring[i].id == id;
        assert r[if i < j then i else i - 1] == ring[i];
      }
    }
  }

  lemma IdsBlocked(s: Tasks.System, waiting: Tasks.Waiting)
    requires s.ring != []
    ensures Ids(Tasks.BlockedNow(s, waiting).ring) == Ids(s.ring) && Tasks.BlockedNow(s, waiting).reaped == s.reaped
  {
    var t := s.ring[0].(state := Tasks.Blocked, waiting := waiting);
    IdsUpdated(s.ring, 0, t);
    IdsSwitched(s.ring[0 := t]);
  }

  lemma IdsReaped(s: Tasks.System, j: nat)
    requires Tasks.Distinct(s.ring) && 0 < j < |s.ring|
    ensures Tasks.Reap(s, j).reaped != [] && Tasks.Reap(s, j).reaped != s.reaped
    ensures Ids(Tasks.Reap(s, j).ring) == Ids(s.ring) - {JustReaped(Tasks.Reap(s, j))} && JustReaped(Tasks.Reap(s, j)) == s.ring[j].id
    ensures s.ring[j].id != s.ring[0].id
  {
    var ring := s.ring[0 := s.ring[0].(waiting := Tasks.No)];
    IdsUpdated(s.ring, 0, s.ring[0].(waiting := Tasks.No));
    IdsWithout(ring, j);
  }

  /** A call that only concerns the ring takes nobody out and lets nobody in. */
  lemma IdsKept(s: Tasks.System, call: Call)
    requires s.ring != [] && RingOnly(call)
    ensures var s' := Tasks.Next(s, TaskEvent(call));
      && Ids(s'.ring) == Ids(s.ring) && s'.nextId == s.nextId && s'.parents == s.parents && s'.reaped == s.reaped
  {
    match call
    case Preempt => IdsSwitched(s.ring);
    case Exit(code) =>
      IdsEnded(s, 0, code);
      IdsSwitched(Tasks.Ended(s, 0, code).ring);
    case Kill(id, code) =>
      var j := Tasks.Find(s.ring, id, 1);
      if j < |s.ring| { IdsEnded(s, j, code); }
  }

  /** A wait call takes out of the ring the task it has reaped, and nobody else. */
  lemma IdsWaited(s: Tasks.System, e: Tasks.Event)
    requires Tasks.Sound(s) && (e.WaitAny? || e.WaitFor?) && Tasks.Allowed(s, e)
    ensures var s' := Tasks.Next(s, e);
      && s'.nextId == s.nextId && s'.parents == s.parents
      && (s'.reaped == s.reaped ==> Ids(s'.ring) == Ids(s.ring))
      && (s'.reaped != s.reaped ==> HasReaped(s, s'))
  {
    var self := s.ring[0];
    if e.WaitAny? {
      var j := Tasks.ZombieChild(s.ring, self.id, 1);
      if j < |s.ring| { IdsReaped(s, j); assert s.ring[j] in s.ring; }
      else if Tasks.HasChild(s.ring, self.id) { IdsBlocked(s, Tasks.ForAny); }
      else { IdsUpdated(s.ring, 0, self.(waiting := Tasks.No)); }
    } else {
      var j := Tasks.Find(s.ring, e.pid, 1);
      if j < |s.ring| {
        if s.ring[j].state == Tasks.Zombie { IdsReaped(s, j); assert s.ring[j] in s.ring; }
        else { IdsBlocked(s, Tasks.For(e.pid)); }
      }
    }
  }

  lemma IdsCreated(s: Tasks.System)
    requires s.ring != []
    ensures var s' := Tasks.Next(s, Tasks.Create);
      && Ids(s'.ring) == Ids(s.ring) + {s.nextId} && s'.nextId == s.nextId + 1 && s'.reaped == s.reaped
      && s'.parents.Keys == s.parents.Keys + {s.nextId}
  {
    IdsInserted(s.ring, Tasks.Task(s.nextId, Tasks.Ready, Some(s.ring[0].id), 0, Tasks.No));
  }

  // ---------------------------------------------------------------- operations one after the other

  lemma LeadsNone(a: Moment)
    requires AtRest(a)
    ensures Leads(a, [], [], a)
  {
    assert LeadsBy([a], a, [], [], a);
  }

  lemma LeadsMore(a: Moment, ops: seq<Op>, evs: seq<Event>, b: Moment, op: Op, ev: Event, c: Moment)
    requires Leads(a, ops, evs, b) && Stepped(b, op, ev, c) && AtRest(c)
    ensures Leads(a, ops + [op], evs + [ev], c)
  {
    hide Stepped, AtRest, Trail;
    var trail :| LeadsBy(trail, a, ops, evs, b);
    LeadsLength(trail, a, ops, evs, b);
    SteppedMore(trail, ops, evs, op, ev, c);
    assert LeadsBy(trail + [c], a, ops + [op], evs + [ev], c);
  }

  lemma LeadsLength(trail: seq<Moment>, a: Moment, ops: seq<Op>, evs: seq<Event>, b: Moment)
    requires LeadsBy(trail, a, ops, evs, b)
    ensures |trail| == |evs| + 1 && |ops| == |evs|
  {
  }

  lemma LeadsOne(a: Moment, op: Op, ev: Event, b: Moment)
    requires AtRest(a) && Stepped(a, op, ev, b) && AtRest(b)
    ensures Leads(a, [op], [ev], b)
  {
    hide Stepped, AtRest, Leads;
    LeadsNone(a);
    LeadsMore(a, [], [], a, op, ev, b);
    assert [] + [op] == [op] && [] + [ev] == [ev];
  }

  /** The last operation, and all before it. */
  lemma LeadsLast(a: Moment, ops: seq<Op>, evs: seq<Event>, b: Moment) returns (m: Moment)
    requires Leads(a, ops, evs, b) && ops != []
    ensures |ops| == |evs| && AtRest(m) && AtRest(b)
    ensures Leads(a, ops[..|ops| - 1], evs[..|ops| - 1], m) && Stepped(m, ops[|ops| - 1], evs[|ops| - 1], b)
  {
    hide Stepped, AtRest;
    var trail :| LeadsBy(trail, a, ops, evs, b);
    Conservation.TrailPrefix(trail, ops, evs);
    m := trail[|ops| - 1];
    assert m in trail && b in trail;
    assert LeadsBy(trail[..|evs|], a, ops[..|ops| - 1], evs[..|ops| - 1], m);
  }

  lemma LeadsNowhere(a: Moment, ops: seq<Op>, evs: seq<Event>, b: Moment)
    requires Leads(a, ops, evs, b)
    ensures AtRest(a) && AtRest(b) && |ops| == |evs| && (ops == [] ==> a == b)
  {
    var trail :| LeadsBy(trail, a, ops, evs, b);
    assert trail[0] in trail && trail[|evs|] in trail;
  }

  lemma {:induction false} LeadsJoin(a: Moment, ops: seq<Op>, evs: seq<Event>, b: Moment, ops': seq<Op>, evs': seq<Event>, c: Moment)
    requires Leads(a, ops, evs, b) && Leads(b, ops', evs', c)
    ensures Leads(a, ops + ops', evs + evs', c)
    decreases |ops'|
  {
    hide Stepped, AtRest, Leads;
    LeadsNowhere(b, ops', evs', c);
    if ops' == [] {
      assert ops + ops' == ops && evs + evs' == evs;
    } else {
      var n := |ops'| - 1;
      var m := LeadsLast(b, ops', evs', c);
      LeadsJoin(a, ops, evs, b, ops'[..n], evs'[..n], m);
      LeadsMore(a, ops + ops'[..n], evs + evs'[..n], m, ops'[n], evs'[n], c);
      assert ops + ops'[..n] + [ops'[n]] == ops + ops' && evs + evs'[..n] + [evs'[n]] == evs + evs';
    }
  }

  /** An operation first, and then others. */
  lemma LeadsFirst(a: Moment, op: Op, ops: seq<Op>, evs: seq<Event>, b: Moment) returns (m: Moment)
    requires Leads(a, [op] + ops, evs, b)
    ensures |evs| == |ops| + 1 && AtRest(m) && Stepped(a, op, evs[0], m) && Leads(m, ops, evs[1..], b)
    decreases |ops|
  {
    hide Stepped, AtRest, Leads;
    var l := LeadsLast(a, [op] + ops, evs, b);
    if ops == [] {
      LeadsNowhere(a, ([op] + ops)[..0], evs[..0], l);
      m := b;
      LeadsNone(b);
      assert evs[1..] == [];
    } else {
      var n := |ops| - 1;
      assert ([op] + ops)[..n + 1] == [op] + ops[..n];
      m := LeadsFirst(a, op, ops[..n], evs[..n + 1], l);
      LeadsMore(m, ops[..n], evs[..n + 1][1..], l, ops[n], evs[n + 1], b);
      assert ops[..n] + [ops[n]] == ops && evs[..n + 1][1..] + [evs[n + 1]] == evs[1..];
    }
  }

  // ---------------------------------------------------------------- one call

  /** Task 0 has no parent, so nobody reaps it. */
  lemma NotReaped(s: Tasks.System, e: Tasks.Event)
    requires Tasks.Sound(s) && (e.WaitAny? || e.WaitFor?) && Tasks.Allowed(s, e) && 0 !in s.parents
    ensures var s' := Tasks.Next(s, e); HasReaped(s, s') ==> JustReaped(s') != 0
  {
    Tasks.NextSound(s, e);
  }

  lemma ReapedGrew(s: Tasks.System, s': Tasks.System, id: nat)
    requires HasReaped(s, s')
    ensures WasReaped(s', id) <==> WasReaped(s, id) || id == JustReaped(s')
  {
    assert s'.reaped == s.reaped + [s'.reaped[|s.reaped|]];
    assert forall r :: r in s'.reaped <==> r in s.reaped || r == s'.reaped[|s.reaped|];
  }

  /** What an operation does to the table of processes. */
  lemma DirsAfter(a: Moment, op: Op, ev: Event, b: Moment)
    requires Stepped(a, op, ev, b)
    ensures b.next == (if (op.ForkOp? && ev.Child?) || (op.SpawnOp? && ev.Started?) then a.next + 1 else a.next)
    ensures b.dirs.Keys == match op
      case ForkOp(p) => if p in a.dirs then a.dirs.Keys + {a.next} else a.dirs.Keys
      case SpawnOp(_) => if ev.Started? then a.dirs.Keys + {a.next} else a.dirs.Keys
      case ReapOp(p) => a.dirs.Keys - {p}
      case _ => a.dirs.Keys
    ensures (op.ForkOp? && op.pid in a.dirs ==> ev == Child(a.next)) && (op.ReapOp? && op.pid in a.dirs ==> ev == Reaped)
    ensures op.SpawnOp? ==> !ev.Child?
  {
    hide SpaceOf, Leftovers, Inherited, StackLeft, Scarce, LeakFreeOp, ProgramSpace, PokeSpace, Overreads, Sharers, FramesStay;
    assert a.View().spaces.Keys == a.dirs.Keys && b.View().spaces.Keys == b.dirs.Keys;
  }

  lemma RingMatched(k: State, call: Call, evs: seq<Event>, k': State)
    requires Matched(k) && RingOnly(call) && Calls(k, call, evs, k')
    ensures Matched(k') && k'.memory == k.memory
  {
    hide Tasks.Sound, AtRest, Ids, Tasks.Next, Tasks.Allowed, Leads;
    LeadsNowhere(k.memory, [], evs, k'.memory);
    Tasks.NextSound(k.tasks, TaskEvent(call));
    IdsKept(k.tasks, call);
  }

  /** Stores by the kernel take no process away and bring none. */
  lemma {:induction false} PokesDirs(a: Moment, ops: seq<Op>, evs: seq<Event>, b: Moment)
    requires Leads(a, ops, evs, b) && forall op <- ops :: op.PokeOp?
    ensures b.dirs.Keys == a.dirs.Keys && b.next == a.next
    decreases |ops|
  {
    hide Leads, Stepped, AtRest;
    LeadsNowhere(a, ops, evs, b);
    if ops != [] {
      var n := |ops| - 1;
      assert ops[n] in ops && forall op <- ops[..n] :: op in ops;
      var m := LeadsLast(a, ops, evs, b);
      PokesDirs(a, ops[..n], evs[..n], m);
      DirsAfter(m, ops[n], evs[n], b);
    }
  }

  /** What a wait call does to the table of processes. */
  lemma WaitDirs(k: State, call: Call, evs: seq<Event>, k': State)
    requires Waits(call) && Calls(k, call, evs, k')
    ensures k'.memory.next == k.memory.next && AtRest(k'.memory)
    ensures k'.memory.dirs.Keys == k.memory.dirs.Keys - if Reaps(k, k') then {JustReaped(k'.tasks)} else {}
  {
    hide Leads, Stepped, AtRest, Tasks.Next, Tasks.Allowed;
    LeadsNowhere(k.memory, OpsOf(k, call, k'), evs, k'.memory);
    if Reaps(k, k') {
      var op := ReapOp(JustReaped(k'.tasks));
      var m := LeadsFirst(k.memory, op, StatusOps(k, call, k'), evs, k'.memory);
      DirsAfter(k.memory, op, evs[0], m);
      PokesDirs(m, StatusOps(k, call, k'), evs[1..], k'.memory);
    }
  }

  lemma WaitMatched(k: State, call: Call, evs: seq<Event>, k': State)
    requires Matched(k) && Waits(call) && Calls(k, call, evs, k')
    ensures Matched(k') && (Reaps(k, k') ==> JustReaped(k'.tasks) != Runner(k))
  {
    hide Tasks.Sound, AtRest, Ids, Tasks.Next, Tasks.Allowed, WasReaped, Leads;
    WaitDirs(k, call, evs, k');
    hide OpsOf;
    var e := TaskEvent(call);
    Tasks.NextSound(k.tasks, e);
    IdsWaited(k.tasks, e);
    NotReaped(k.tasks, e);
    if k'.tasks.reaped == k.tasks.reaped {
      forall id: nat ensures WasReaped(k'.tasks, id) <==> WasReaped(k.tasks, id) { SameReaped(k.tasks, k'.tasks, id); }
    } else {
      forall id: nat ensures WasReaped(k'.tasks, id) <==> WasReaped(k.tasks, id) || id == JustReaped(k'.tasks) {
        ReapedGrew(k.tasks, k'.tasks, id);
      }
    }
  }

  lemma SameReaped(s: Tasks.System, s': Tasks.System, id: nat)
    requires s'.reaped == s.reaped
    ensures WasReaped(s', id) <==> WasReaped(s, id)
  {
  }

  /** A call that is one operation on the address spaces. */
  lemma ActIs(k: State, call: Call, evs: seq<Event>, k': State)
    requires !RingOnly(call) && !Waits(call) && Calls(k, call, evs, k')
    ensures |evs| == 1 && Stepped(k.memory, MemoryOp(Runner(k), call), evs[0], k'.memory) && AtRest(k'.memory)
  {
    hide Leads, Stepped, AtRest, Tasks.Next;
    LeadsNowhere(k.memory, OpsOf(k, call, k'), evs, k'.memory);
    var op := MemoryOp(Runner(k), call);
    assert [op] == [op] + [];
    var m := LeadsFirst(k.memory, op, [], evs, k'.memory);
    LeadsNowhere(m, [], evs[1..], k'.memory);
  }

  lemma ActMatched(k: State, call: Call, evs: seq<Event>, k': State)
    requires Matched(k) && !RingOnly(call) && !Waits(call) && Calls(k, call, evs, k')
    ensures Matched(k') && k.memory.dirs.Keys <= k'.memory.dirs.Keys
  {
    hide Tasks.Sound, AtRest, Ids, Tasks.Next, Stepped, WasReaped, Leads;
    ActIs(k, call, evs, k');
    var self := k.tasks.ring[0].id;
    Running(k);
    DirsAfter(k.memory, MemoryOp(self, call), evs[0], k'.memory);
    if (call.Fork? || call.Run?) && (evs[0].Child? || evs[0].Started?) {
      Tasks.NextSound(k.tasks, Tasks.Create);
      IdsCreated(k.tasks);
      forall id: nat ensures WasReaped(k'.tasks, id) <==> WasReaped(k.tasks, id) { SameReaped(k.tasks, k'.tasks, id); }
      NewId(k);
    }
  }

  /** The next id is nobody's yet. */
  lemma NewId(k: State)
    requires Matched(k)
    ensures !WasReaped(k.tasks, k.tasks.nextId) && k.tasks.nextId > 0
  {
  }

  /** The running task is the kernel's or has memory. */
  lemma Running(k: State)
    requires Matched(k)
    ensures k.tasks.ring != [] && (k.tasks.ring[0].id == 0 || k.tasks.ring[0].id in k.memory.dirs)
  {
    assert k.tasks.ring[0] in k.tasks.ring;
  }

  /** Whatever is called, tasks and memory still belong together afterwards. */
  lemma CallMatched(k: State, call: Call, evs: seq<Event>, k': State)
    requires Matched(k) && Calls(k, call, evs, k')
    ensures Matched(k')
  {
    hide Matched, Calls, AtRest, Tasks.Allowed;
    if RingOnly(call) { RingMatched(k, call, evs, k'); }
    else if Waits(call) { WaitMatched(k, call, evs, k'); }
    else { ActMatched(k, call, evs, k'); }
  }

  /** Memory is only given to tasks that are new. */
  lemma CallOlder(k: State, call: Call, evs: seq<Event>, k': State, p: nat)
    requires Matched(k) && Calls(k, call, evs, k')
    ensures k.memory.next <= k'.memory.next && (p in k'.memory.dirs && p < k.memory.next ==> p in k.memory.dirs)
  {
    hide Stepped, AtRest, Matched, Calls, Tasks.Allowed, Tasks.Next, TasksAfter, CanCall;
    if RingOnly(call) { RingMatched(k, call, evs, k'); }
    else if Waits(call) { WaitDirs(k, call, evs, k'); }
    else {
      ActIs(k, call, evs, k');
      DirsAfter(k.memory, MemoryOp(Runner(k), call), evs[0], k'.memory);
    }
  }

  lemma MatchedIs(k: State, p: nat)
    requires Matched(k) && p > 0
    ensures p in k.memory.dirs <==> p < k.tasks.nextId && !WasReaped(k.tasks, p)
    ensures p in k.memory.dirs ==> p < k.memory.next
    ensures Runner(k) == p ==> p in k.memory.dirs
  {
  }

  // ---------------------------------------------------------------- the bytes of the exit code

  /** A byte of a process's memory, and where it is. */
  ghost predicate HasByte(a: Moment, q: nat, at: nat) {
    at < 0x1_0000_0000 && q in a.View().spaces && PageOf(at) in a.View().spaces[q] && |a.View().spaces[q][PageOf(at)]| == FRAME_SIZE
  }

  ghost function ByteAt(a: Moment, q: nat, at: nat): bv8
    requires HasByte(a, q, at)
  {
    a.View().spaces[q][PageOf(at)][OffsetOf(at)]
  }

  /** An address is where it is. */
  lemma SameAddress(a: nat, b: nat)
    requires a < 0x1_0000_0000 && b < 0x1_0000_0000
    ensures a == b <==> PageOf(a) == PageOf(b) && OffsetOf(a) == OffsetOf(b)
  {
    AddressSplits(a);
    AddressSplits(b);
  }

  lemma FramesSharers(a: Moment, b: Moment, p: nat, page: VPage)
    requires FramesStay(a, b) && p in b.dirs
    ensures Sharers(b, p, page) == Sharers(a, p, page) * b.dirs.Keys
  {
    forall q <- b.dirs
      ensures q in Sharers(b, p, page) <==> q in Sharers(a, p, page)
    {
      assert FramesKept(a.x.m, b.x.m, b.dirs[q]) && FramesKept(a.x.m, b.x.m, b.dirs[p]);
    }
  }

  /** One byte stored by the kernel. */
  lemma PokeEffect(a: Moment, p: nat, virt: nat, b: bv8, ev: Event, a': Moment, q: nat, at: nat)
    requires Stepped(a, PokeOp(p, virt, b), ev, a') && HasByte(a, p, virt) && HasByte(a, q, at)
    ensures HasByte(a', q, at) && a'.View().spaces.Keys == a.View().spaces.Keys
    ensures a'.View().spaces[q].Keys == a.View().spaces[q].Keys
    ensures ByteAt(a', q, at) == if at == virt && q in Sharers(a, p, PageOf(virt)) then b else ByteAt(a, q, at)
    ensures ev.Poked? && FramesStay(a, a')
  {
    hide ViewOf, Leftovers, Inherited, StackLeft, Scarce, LeakFreeOp, ProgramSpace, Overreads, Sharers, FramesStay, PageOf, OffsetOf;
    SameAddress(at, virt);
    AddressSplits(at);
    AddressSplits(virt);
    NextPoked(a.View(), p, virt, b, ev.sharers, q);
  }

  ghost predicate HasByteAt(a: Moment, p: nat, virt: nat, i: nat) { HasByte(a, p, virt + i) }
  ghost predicate HasBytes(a: Moment, p: nat, virt: nat, n: nat) { forall i: nat :: i < n ==> HasByteAt(a, p, virt, i) }

  /** Bytes stored by the kernel one after the other: each shows to all whose page lies in the same frame, and nothing else
      changes. */
  lemma {:induction false} PokesEffect(a: Moment, p: nat, virt: nat, bytes: seq<bv8>, evs: seq<Event>, b: Moment, q: nat, at: nat)
    requires Leads(a, PokeOps(p, virt, bytes), evs, b) && p in a.dirs && q in a.dirs
    requires HasBytes(a, p, virt, |bytes|) && HasByte(a, q, at)
    ensures HasByte(b, q, at) && b.View().spaces.Keys == a.View().spaces.Keys
    ensures b.View().spaces[q].Keys == a.View().spaces[q].Keys
    ensures ByteAt(b, q, at) ==
      if virt <= at < virt + |bytes| && q in Sharers(a, p, PageOf(at)) then bytes[at - virt] else ByteAt(a, q, at)
    ensures (forall page :: Sharers(b, p, page) == Sharers(a, p, page)) && forall ev <- evs :: ev.Poked?
    decreases |bytes|
  {
    hide Leads, AtRest, Stepped, HasByte, ByteAt, Sharers, PageOf, ViewOf;
    LeadsNowhere(a, PokeOps(p, virt, bytes), evs, b);
    Conservation.ViewKeys(a);
    if bytes != [] {
      var n := |bytes| - 1;
      var m := LeadsLast(a, PokeOps(p, virt, bytes), evs, b);
      assert PokeOps(p, virt, bytes)[..n] == PokeOps(p, virt, bytes[..n]);
      assert HasByteAt(a, p, virt, n);
      PokesEffect(a, p, virt, bytes[..n], evs[..n], m, q, at);
      PokesEffect(a, p, virt, bytes[..n], evs[..n], m, p, virt + n);
      PokeEffect(m, p, virt + n, bytes[n], evs[n], b, q, at);
      Conservation.ViewKeys(m);
      Conservation.ViewKeys(b);
      forall page ensures Sharers(b, p, page) == Sharers(m, p, page) { SharersStay(m, b, p, page); }
    }
  }

  lemma SharersStay(a: Moment, b: Moment, p: nat, page: VPage)
    requires FramesStay(a, b) && a.dirs.Keys == b.dirs.Keys && p in a.dirs
    ensures Sharers(b, p, page) == Sharers(a, p, page)
  {
    FramesSharers(a, b, p, page);
  }

  /** An exit code is stored: the caller reaps, asks for the code, and has all four bytes mapped. */
  ghost predicate StoresStatus(k: State, call: Call, k': State) {
    call.WaitAny? && call.status != 0 && Reaps(k, k') && FirstMissing(RunnerSpace(k), call.status, 0) == 4
  }

  /** Every page of every process has its bytes. */
  lemma PagesFull(a: Moment, q: nat, page: VPage)
    requires AtRest(a) && q in a.dirs && page in a.View().spaces[q]
    ensures |a.View().spaces[q][page]| == FRAME_SIZE && page.pd < ENTRIES && page.pt < ENTRIES
  {
    hide Tidy, OwnerlessPrivate, TableValid;
    ImageShape(a.x);
    InSpace(a.x.image, a.dirs[q], page);
    Sharing.LeafFacts(a.x, Slot(a.dirs[q], page));
  }

  lemma HasIt(a: Moment, q: nat, at: nat)
    requires AtRest(a) && q in a.dirs && at < 0x1_0000_0000 && PageOf(at) in a.View().spaces[q]
    ensures HasByte(a, q, at)
  {
    hide AtRest, SpaceOf, PageOf;
    PagesFull(a, q, PageOf(at));
  }

  /** Reaping one process leaves the others' memory alone, and who shares it. */
  lemma ReapEffect(a: Moment, p: nat, ev: Event, b: Moment, q: nat)
    requires Stepped(a, ReapOp(p), ev, b) && q in a.dirs && q != p
    ensures q in b.dirs && b.View().spaces[q] == a.View().spaces[q]
    ensures forall page :: Sharers(b, q, page) == Sharers(a, q, page) - {p}
  {
    hide SpaceOf, Leftovers, Inherited, StackLeft, Scarce, LeakFreeOp, ProgramSpace, PokeSpace, Overreads, Sharers, FramesStay;
    DirsAfter(a, ReapOp(p), ev, b);
    forall page ensures Sharers(b, q, page) == Sharers(a, q, page) - {p} {
      FramesSharers(a, b, q, page);
      SharersThere(a, q, page);
    }
  }

  lemma SharersThere(a: Moment, p: nat, page: VPage)
    ensures Sharers(a, p, page) <= a.dirs.Keys
  {
  }

  /** What a wait call does to a byte of a process that is still there afterwards: nothing, but that the exit code goes where
      the caller wants it, for all who share that page with the caller. */
  lemma WaitEffect(k: State, call: Call, evs: seq<Event>, k': State, q: nat, at: nat)
    requires Matched(k) && Waits(call) && Calls(k, call, evs, k') && q in k.memory.dirs && q in k'.memory.dirs
    requires HasByte(k.memory, q, at)
    ensures HasByte(k'.memory, q, at) && k'.memory.View().spaces[q].Keys == k.memory.View().spaces[q].Keys
    ensures ByteAt(k'.memory, q, at) ==
      if StoresStatus(k, call, k') && call.status <= at < call.status + 4 && q in Sharers(k.memory, Runner(k), PageOf(at))
      then ExitBytes(k')[at - call.status] else ByteAt(k.memory, q, at)
  {
    hide Leads, AtRest, Stepped, HasByte, ByteAt, Sharers, PageOf, ViewOf, Matched, Tasks.Next, Tasks.Allowed, Calls, ExitBytes;
    CallLeads(k, call, evs, k');
    WaitDirs(k, call, evs, k');
    LeadsNowhere(k.memory, OpsOf(k, call, k'), evs, k'.memory);
    if Reaps(k, k') {
      var pid := JustReaped(k'.tasks);
      WaitMatched(k, call, evs, k');
      var m := LeadsFirst(k.memory, ReapOp(pid), StatusOps(k, call, k'), evs, k'.memory);
      ReapEffect(k.memory, pid, evs[0], m, q);
      Conservation.ViewKeys(m);
      ReapBytes(k.memory, m, q, at);
      StatusEffect(k, call, k', m, evs[1..], q, at);
    }
  }

  lemma CallLeads(k: State, call: Call, evs: seq<Event>, k': State)
    requires Calls(k, call, evs, k')
    ensures Leads(k.memory, OpsOf(k, call, k'), evs, k'.memory) && (Reaps(k, k') ==> UserStatus(call))
    ensures call.WaitAny? && call.status != 0 ==> Runner(k) != 0
  {
    hide Leads, Tasks.Next, Tasks.Allowed;
  }

  lemma ReapBytes(a: Moment, b: Moment, q: nat, at: nat)
    requires HasByte(a, q, at) && q in b.View().spaces && b.View().spaces[q] == a.View().spaces[q]
    ensures HasByte(b, q, at) && ByteAt(b, q, at) == ByteAt(a, q, at)
  {
    hide ViewOf;
  }

  /** The caller's memory, and who shares it, once another task has been reaped. */
  lemma CallerAfter(k: State, call: Call, k': State, m: Moment, page: VPage)
    requires Matched(k) && k'.tasks.reaped != [] && Runner(k) != 0 && JustReaped(k'.tasks) != Runner(k)
    requires exists ev :: Stepped(k.memory, ReapOp(JustReaped(k'.tasks)), ev, m)
    ensures Runner(k) in m.dirs && Runner(k) in m.View().spaces && m.View().spaces[Runner(k)] == RunnerSpace(k)
    ensures Sharers(m, Runner(k), page) == Sharers(k.memory, Runner(k), page) - {JustReaped(k'.tasks)}
  {
    Running(k);
    hide AtRest, Stepped, Sharers, ViewOf, Matched;
    var ev :| Stepped(k.memory, ReapOp(JustReaped(k'.tasks)), ev, m);
    ReapEffect(k.memory, JustReaped(k'.tasks), ev, m, Runner(k));
    Conservation.ViewKeys(k.memory);
    Conservation.ViewKeys(m);
  }

  lemma MappedBytes(m: Moment, p: nat, virt: nat)
    requires AtRest(m) && p in m.dirs && p in m.View().spaces && virt + 3 < 0x1_0000_0000
    requires FirstMissing(m.View().spaces[p], virt, 0) == 4
    ensures HasBytes(m, p, virt, 4)
  {
    hide AtRest, ViewOf, PageOf, HasByte;
    forall i: nat | i < 4 ensures HasByteAt(m, p, virt, i) {
      assert MappedAt(m.View().spaces[p], virt, i);
      HasIt(m, p, virt + i);
    }
  }

  /** The store of the exit code, from the moment after the reaping. */
  lemma StatusEffect(k: State, call: Call, k': State, m: Moment, evs: seq<Event>, q: nat, at: nat)
    requires Matched(k) && Reaps(k, k') && UserStatus(call) && (call.WaitAny? && call.status != 0 ==> Runner(k) != 0)
    requires JustReaped(k'.tasks) != Runner(k) && q != JustReaped(k'.tasks)
    requires AtRest(m) && q in m.dirs && HasByte(m, q, at) && Leads(m, StatusOps(k, call, k'), evs, k'.memory)
    requires exists ev :: Stepped(k.memory, ReapOp(JustReaped(k'.tasks)), ev, m)
    ensures HasByte(k'.memory, q, at) && k'.memory.View().spaces[q].Keys == m.View().spaces[q].Keys
    ensures ByteAt(k'.memory, q, at) ==
      if StoresStatus(k, call, k') && call.status <= at < call.status + 4 && q in Sharers(k.memory, Runner(k), PageOf(at))
      then ExitBytes(k')[at - call.status] else ByteAt(m, q, at)
  {
    hide Leads, AtRest, Stepped, HasByte, ByteAt, Sharers, PageOf, ViewOf, Matched, ExitBytes, PokeOps, RunnerSpace, FirstMissing;
    LeadsNowhere(m, StatusOps(k, call, k'), evs, k'.memory);
    if call.WaitAny? && call.status != 0 {
      CallerAfter(k, call, k', m, PageOf(at));
      var j := FirstMissing(RunnerSpace(k), call.status, 0);
      if j < 4 {
        FaultEffect(m, Runner(k), call.status + j, ExitByte(k', j), evs, k'.memory);
        SameView(m, k'.memory, q, at);
      } else {
        MappedBytes(m, Runner(k), call.status);
        PokesEffect(m, Runner(k), call.status, ExitBytes(k'), evs, k'.memory, q, at);
      }
    }
  }

  lemma SameView(a: Moment, b: Moment, q: nat, at: nat)
    requires a.View() == b.View() && HasByte(a, q, at)
    ensures HasByte(b, q, at) && ByteAt(b, q, at) == ByteAt(a, q, at)
  {
  }

  /** A store to a page that is not mapped changes nothing. */
  lemma FaultEffect(a: Moment, p: nat, virt: nat, b: bv8, evs: seq<Event>, a': Moment)
    requires Leads(a, [PokeOp(p, virt, b)], evs, a') && p in a.View().spaces && PageOf(virt) !in a.View().spaces[p]
    ensures a'.View() == a.View() && evs == [Halted]
  {
    hide Leads, AtRest, Stepped, PageOf, ViewOf;
    LeadsNowhere(a, [PokeOp(p, virt, b)], evs, a');
    assert [PokeOp(p, virt, b)] == [PokeOp(p, virt, b)] + [];
    var m := LeadsFirst(a, PokeOp(p, virt, b), [], evs, a');
    LeadsNowhere(m, [], evs[1..], a');
    SteppedAllowed(a, PokeOp(p, virt, b), evs[0], a');
  }

  /** A byte of a process's memory holds a byte of the exit code. */
  ghost predicate HoldsCode(k: State, call: Call, k': State, q: nat, i: nat) {
    && call.WaitAny? && k'.tasks.reaped != [] && i < 4 && HasByte(k'.memory, q, call.status + i)
    && ByteAt(k'.memory, q, call.status + i) == ExitBytes(k')[i]
  }

  /** The caller finds the exit code at the address it gave. */
  lemma StatusFound(k: State, call: Call, evs: seq<Event>, k': State, i: nat)
    requires Matched(k) && Calls(k, call, evs, k') && StoresStatus(k, call, k') && i < 4
    ensures HoldsCode(k, call, k', Runner(k), i)
  {
    hide Leads, Stepped, HasByte, ByteAt, ViewOf, Tasks.Next, Tasks.Allowed, ExitBytes, PageOf, OpsOf, StatusOps, Matched, Calls, AtRest, Sharers;
    CallLeads(k, call, evs, k');
    MatchedRests(k);
    Running(k);
    WaitMatched(k, call, evs, k');
    WaitDirs(k, call, evs, k');
    Conservation.ViewKeys(k.memory);
    assert MappedAt(RunnerSpace(k), call.status, i);
    HasIt(k.memory, Runner(k), call.status + i);
    SharesOwn(k.memory, Runner(k), PageOf(call.status + i));
    WaitEffect(k, call, evs, k', Runner(k), call.status + i);
  }

  lemma MatchedRests(k: State)
    requires Matched(k)
    ensures AtRest(k.memory)
  {
  }

  lemma SharesOwn(a: Moment, p: nat, page: VPage)
    requires AtRest(a) && p in a.dirs && page in a.View().spaces[p]
    ensures p in Sharers(a, p, page)
  {
    hide Tidy, OwnerlessPrivate, TableValid;
    ImageShape(a.x);
    InSpace(a.x.image, a.dirs[p], page);
  }

  /** A byte of the exit code that changes another process's memory: its page lies in the same frame as the caller's, and the
      byte was not there already. */
  ghost predicate SpilledAt(k: State, call: Call, k': State, q: nat, i: nat)
    requires StoresStatus(k, call, k')
  {
    && i < 4 && q in Sharers(k.memory, Runner(k), PageOf(call.status + i)) && HasByte(k.memory, q, call.status + i)
    && ByteAt(k.memory, q, call.status + i) != ExitBytes(k')[i]
  }

  ghost predicate Spilled(k: State, call: Call, k': State, q: nat) {
    StoresStatus(k, call, k') && exists i: nat :: SpilledAt(k, call, k', q, i)
  }

  /** Two memories of a process that agree on every byte. */
  lemma SameBytes(a: Moment, b: Moment, q: nat)
    requires AtRest(a) && AtRest(b) && q in a.dirs && q in b.dirs && a.View().spaces[q].Keys == b.View().spaces[q].Keys
    requires forall at: nat :: HasByte(a, q, at) ==> HasByte(b, q, at) && ByteAt(b, q, at) == ByteAt(a, q, at)
    ensures b.View().spaces[q] == a.View().spaces[q]
  {
    hide AtRest, ViewOf, PageOf, OffsetOf, AddressOf;
    Conservation.ViewKeys(a);
    Conservation.ViewKeys(b);
    forall page <- a.View().spaces[q]
      ensures b.View().spaces[q][page] == a.View().spaces[q][page]
    {
      PagesFull(a, q, page);
      PagesFull(b, q, page);
      forall o: nat | o < FRAME_SIZE
        ensures b.View().spaces[q][page][o] == a.View().spaces[q][page][o]
      {
        var at := AddressOf(page) + o;
        AddressJoins(page, o);
        InMemory(page, o);
        assert HasByte(a, q, at);
        assert ByteAt(b, q, at) == ByteAt(a, q, at);
      }
    }
  }

  lemma InMemory(page: VPage, o: nat)
    requires page.pd < ENTRIES && page.pt < ENTRIES && o < FRAME_SIZE
    ensures AddressOf(page) + o < 0x1_0000_0000
  {
  }

  /** A wait call changes another program's memory if and only if a byte of the exit code spills into it. */
  lemma WaitKeeps(k: State, call: Call, evs: seq<Event>, k': State, q: nat)
    requires Matched(k) && Waits(call) && Calls(k, call, evs, k') && q in k.memory.dirs && q in k'.memory.dirs && q != Runner(k)
    ensures k'.memory.View().spaces[q] == k.memory.View().spaces[q] <==> !Spilled(k, call, k', q)
  {
    hide Matched, Calls, AtRest, Leads, Stepped, HasByte, ByteAt, Sharers, ViewOf, Tasks.Next, Tasks.Allowed, ExitBytes, PageOf;
    hide RunnerSpace, FirstMissing, OpsOf, StatusOps, UserStatus;
    MatchedRests(k);
    WaitDirs(k, call, evs, k');
    Conservation.ViewKeys(k.memory);
    Conservation.ViewKeys(k'.memory);
    if Spilled(k, call, k', q) {
      var i: nat :| SpilledAt(k, call, k', q, i);
      WaitEffect(k, call, evs, k', q, call.status + i);
      assert ByteAt(k'.memory, q, call.status + i) != ByteAt(k.memory, q, call.status + i);
      OtherByte(k.memory, k'.memory, q, call.status + i);
    } else {
      forall at: nat | HasByte(k.memory, q, at)
        ensures HasByte(k'.memory, q, at) && ByteAt(k'.memory, q, at) == ByteAt(k.memory, q, at)
      {
        WaitEffect(k, call, evs, k', q, at);
        if StoresStatus(k, call, k') && call.status <= at < call.status + 4 {
          assert !SpilledAt(k, call, k', q, at - call.status);
        }
      }
      WaitKeys(k, call, evs, k', q);
      SameBytes(k.memory, k'.memory, q);
    }
  }

  /** Nor does it change which pages a program has. */
  lemma WaitKeys(k: State, call: Call, evs: seq<Event>, k': State, q: nat)
    requires Waits(call) && Calls(k, call, evs, k') && q in k.memory.dirs && q in k'.memory.dirs
    ensures k'.memory.View().spaces[q].Keys == k.memory.View().spaces[q].Keys
  {
    hide Leads, Stepped, AtRest, Calls, ViewOf, Tasks.Next, Tasks.Allowed, MemoryOp, StatusOps, UserStatus;
    WaitDirs(k, call, evs, k');
    CallLeads(k, call, evs, k');
    LeadsNowhere(k.memory, OpsOf(k, call, k'), evs, k'.memory);
    if Reaps(k, k') {
      var pid := JustReaped(k'.tasks);
      var m := LeadsFirst(k.memory, ReapOp(pid), StatusOps(k, call, k'), evs, k'.memory);
      ReapEffect(k.memory, pid, evs[0], m, q);
      StatusPokes(k, call, k');
      PokesKeys(m, StatusOps(k, call, k'), evs[1..], k'.memory, q);
    }
  }

  lemma StatusPokes(k: State, call: Call, k': State)
    requires k'.tasks.reaped != []
    ensures forall op <- StatusOps(k, call, k') :: op.PokeOp?
  {
  }

  lemma {:induction false} PokesKeys(a: Moment, ops: seq<Op>, evs: seq<Event>, b: Moment, q: nat)
    requires Leads(a, ops, evs, b) && (forall op <- ops :: op.PokeOp?) && q in a.dirs
    ensures q in b.dirs && b.View().spaces[q].Keys == a.View().spaces[q].Keys
    decreases |ops|
  {
    hide Leads, Stepped, AtRest, ViewOf;
    LeadsNowhere(a, ops, evs, b);
    if ops != [] {
      var n := |ops| - 1;
      assert ops[n] in ops && forall op <- ops[..n] :: op in ops;
      var m := LeadsLast(a, ops, evs, b);
      PokesKeys(a, ops[..n], evs[..n], m, q);
      SteppedAllowed(m, ops[n], evs[n], b);
      Conservation.ViewKeys(m);
      Conservation.ViewKeys(b);
      PokeKeys(m.View(), ops[n], evs[n], q);
    }
  }

  lemma PokeKeys(e: Eager, op: Op, ev: Event, q: nat)
    requires op.PokeOp? && q in e.spaces
    ensures q in Next(e, op, ev).spaces && Next(e, op, ev).spaces[q].Keys == e.spaces[q].Keys
  {
    hide PageOf, OffsetOf;
  }

  lemma OtherByte(a: Moment, b: Moment, q: nat, at: nat)
    requires HasByte(a, q, at) && HasByte(b, q, at) && ByteAt(a, q, at) != ByteAt(b, q, at)
    ensures a.View().spaces[q] != b.View().spaces[q]
  {
  }

  /** Whatever another task calls, exit and wait included, a program's memory stays as it is as long as it is not reaped: if
      and only if no byte of an exit code spills into it. */
  lemma OthersKept(k: State, call: Call, evs: seq<Event>, k': State, q: nat)
    requires Matched(k) && Calls(k, call, evs, k')
    requires q in k.memory.dirs && q in k'.memory.dirs && Runner(k) != q
    ensures k'.memory.View().spaces[q] == k.memory.View().spaces[q] <==> !Spilled(k, call, k', q)
  {
    hide Stepped, AtRest, Matched, Calls, Tasks.Allowed, Tasks.Next, ViewOf, Next, TasksAfter, CanCall, StoresStatus, SpilledAt;
    if RingOnly(call) {
      RingMatched(k, call, evs, k');
      NoStatus(k, call, k');
    } else if Waits(call) {
      WaitKeeps(k, call, evs, k', q);
    } else {
      NoStatus(k, call, k');
      ActIs(k, call, evs, k');
      SteppedAllowed(k.memory, MemoryOp(Runner(k), call), evs[0], k'.memory);
      NotNext(k, q);
      Conservation.ViewKeys(k.memory);
      Conservation.ViewKeys(k'.memory);
      OthersInNext(k.memory.View(), MemoryOp(Runner(k), call), evs[0], q);
    }
  }

  lemma NoStatus(k: State, call: Call, k': State)
    requires !call.WaitAny?
    ensures !StoresStatus(k, call, k')
  {
  }

  lemma NotNext(k: State, p: nat)
    requires Matched(k) && p in k.memory.dirs
    ensures p < k.memory.next
  {
  }

  lemma OthersInNext(e: Eager, op: Op, ev: Event, p: nat)
    requires p in e.spaces && p in Next(e, op, ev).spaces && p != e.next && Actor(op) != Some(p) && !op.PokeOp?
    ensures Next(e, op, ev).spaces[p] == e.spaces[p]
  {
  }

  // ---------------------------------------------------------------- whole runs

  ghost predicate CallsAt(trail: seq<State>, calls: seq<Call>, evs: seq<seq<Event>>, i: nat)
    requires |trail| == |evs| + 1 && |calls| == |evs| && i < |evs|
  {
    Calls(trail[i], calls[i], evs[i], trail[i + 1])
  }

  /** States that follow one another by calls. */
  ghost predicate Runs(trail: seq<State>, calls: seq<Call>, evs: seq<seq<Event>>) {
    && |trail| == |evs| + 1 && |calls| == |evs|
    && forall i: nat :: i < |evs| ==> CallsAt(trail, calls, evs, i)
  }

  lemma RunsBefore(trail: seq<State>, calls: seq<Call>, evs: seq<seq<Event>>)
    requires Runs(trail, calls, evs) && evs != []
    ensures var n := |evs| - 1;
      Runs(trail[..|evs|], calls[..n], evs[..n]) && Calls(trail[n], calls[n], evs[n], trail[n + 1])
  {
    hide Calls;
    var n := |evs| - 1;
    assert CallsAt(trail, calls, evs, n);
    forall i: nat | i < n ensures CallsAt(trail[..|evs|], calls[..n], evs[..n], i) { assert CallsAt(trail, calls, evs, i); }
  }

  lemma RunsMore(trail: seq<State>, calls: seq<Call>, evs: seq<seq<Event>>, call: Call, ev: seq<Event>, k: State)
    requires Runs(trail, calls, evs) && Calls(trail[|evs|], call, ev, k)
    ensures Runs(trail + [k], calls + [call], evs + [ev])
  {
    hide Calls;
    var trail', calls', evs' := trail + [k], calls + [call], evs + [ev];
    forall i: nat | i < |evs'|
      ensures CallsAt(trail', calls', evs', i)
    {
      if i < |evs| { assert CallsAt(trail, calls, evs, i); }
    }
  }

  /** No call of a run concerns a program: others are running, and no byte of an exit code spills into its memory. */
  ghost predicate LeftAlone(trail: seq<State>, calls: seq<Call>, evs: seq<seq<Event>>, q: nat)
    requires Runs(trail, calls, evs)
  {
    forall i: nat :: i < |evs| ==> LeftAloneAt(trail, calls, evs, q, i)
  }

  ghost predicate LeftAloneAt(trail: seq<State>, calls: seq<Call>, evs: seq<seq<Event>>, q: nat, i: nat)
    requires Runs(trail, calls, evs) && i < |evs|
  {
    Runner(trail[i]) != q && !Spilled(trail[i], calls[i], trail[i + 1], q)
  }

  /** Over every run, a program has its memory from the call that creates it to the one that reaps it, whether it runs, sleeps
      or is a zombie; and what it reads is as it was for as long as no call concerns it. */
  lemma {:induction false} MemoryKept(trail: seq<State>, calls: seq<Call>, evs: seq<seq<Event>>, q: nat)
    requires Runs(trail, calls, evs) && Matched(trail[0]) && q > 0
    ensures Matched(trail[|evs|]) && trail[0].memory.next <= trail[|evs|].memory.next
    ensures q in trail[|evs|].memory.dirs <==> q < trail[|evs|].tasks.nextId && !WasReaped(trail[|evs|].tasks, q)
    ensures q in trail[0].memory.dirs && q in trail[|evs|].memory.dirs && LeftAlone(trail, calls, evs, q) ==>
      trail[|evs|].memory.View().spaces[q] == trail[0].memory.View().spaces[q]
    decreases |evs|
  {
    hide Matched, Calls, SpaceOf, WasReaped, ViewOf, Spilled;
    MatchedIs(trail[0], q);
    if evs != [] {
      var n := |evs| - 1;
      RunsBefore(trail, calls, evs);
      var k, k' := trail[n], trail[n + 1];
      MemoryKept(trail[..|evs|], calls[..n], evs[..n], q);
      CallMatched(k, calls[n], evs[n], k');
      CallOlder(k, calls[n], evs[n], k', q);
      MatchedIs(k', q);
      if q in trail[0].memory.dirs && q in k'.memory.dirs && LeftAlone(trail, calls, evs, q) {
        assert LeftAloneAt(trail, calls, evs, q, n);
        forall i: nat | i < n ensures LeftAloneAt(trail[..|evs|], calls[..n], evs[..n], q, i) {
          assert LeftAloneAt(trail, calls, evs, q, i);
        }
        OthersKept(k, calls[n], evs[n], k', q);
      }
    }
  }

  // ---------------------------------------------------------------- frames

  function Grows(calls: seq<Call>): nat {
    if calls == [] then 0 else Grows(calls[..|calls| - 1]) + if calls[|calls| - 1].Grow? then 1 else 0
  }

  /** How many run commands did not start their program. */
  function FailedRuns(calls: seq<Call>, evs: seq<seq<Event>>): nat
    requires |calls| == |evs|
  {
    if calls == [] then 0
    else
      var n := |calls| - 1;
      FailedRuns(calls[..n], evs[..n]) + if calls[n].Run? && evs[n] != [] && !evs[n][0].Started? then 1 else 0
  }

  /** No file starts with pages that overlap. */
  ghost predicate CleanFiles(calls: seq<Call>) { forall call <- calls :: call.Exec? || call.Run? ==> Clean(call.elf) }

  /** The operations on the address spaces of a run, one after the other. */
  lemma {:induction false} MemoryRun(trail: seq<State>, calls: seq<Call>, evs: seq<seq<Event>>)
      returns (ops: seq<Op>, memEvs: seq<Event>)
    requires Runs(trail, calls, evs) && AtRest(trail[0].memory)
    ensures |ops| == |memEvs| && Leads(trail[0].memory, ops, memEvs, trail[|evs|].memory)
    ensures CleanFiles(calls) ==> forall op <- ops :: LeakFreeOp(op) || op.HeapOp?
    ensures Conservation.HeapPages(ops) == Grows(calls) && Conservation.Abandoned(ops, memEvs) == FailedRuns(calls, evs)
    decreases |evs|
  {
    hide AtRest, Calls, Leads, Clean;
    if evs == [] {
      LeadsNone(trail[0].memory);
      ops, memEvs := [], [];
    } else {
      var n := |evs| - 1;
      RunsBefore(trail, calls, evs);
      ops, memEvs := MemoryRun(trail[..|evs|], calls[..n], evs[..n]);
      var k, k' := trail[n], trail[n + 1];
      var more := OpsOf(k, calls[n], k');
      CallCosts(k, calls[n], evs[n], k');
      LeadsJoin(trail[0].memory, ops, memEvs, k.memory, more, evs[n], k'.memory);
      SumsJoin(ops, memEvs, more, evs[n]);
      ops, memEvs := ops + more, memEvs + evs[n];
    }
  }

  lemma {:induction false} SumsJoin(ops: seq<Op>, evs: seq<Event>, ops': seq<Op>, evs': seq<Event>)
    requires |ops| == |evs| && |ops'| == |evs'|
    ensures Conservation.HeapPages(ops + ops') == Conservation.HeapPages(ops) + Conservation.HeapPages(ops')
    ensures Conservation.Abandoned(ops + ops', evs + evs') == Conservation.Abandoned(ops, evs) + Conservation.Abandoned(ops', evs')
    decreases |ops'|
  {
    if ops' == [] {
      assert ops + ops' == ops && evs + evs' == evs;
    } else {
      var n := |ops'| - 1;
      SumsJoin(ops, evs, ops'[..n], evs'[..n]);
      assert (ops + ops')[..|ops| + n] == ops + ops'[..n] && (evs + evs')[..|ops| + n] == evs + evs'[..n];
    }
  }

  /** What one call adds to the sums over a run. */
  lemma CallCosts(k: State, call: Call, evs: seq<Event>, k': State)
    requires Calls(k, call, evs, k')
    ensures var ops := OpsOf(k, call, k');
      && |ops| == |evs| && Leads(k.memory, ops, evs, k'.memory)
      && (CleanFiles([call]) ==> forall op <- ops :: LeakFreeOp(op) || op.HeapOp?)
      && Conservation.HeapPages(ops) == (if call.Grow? then 1 else 0)
      && Conservation.Abandoned(ops, evs) == (if call.Run? && evs != [] && !evs[0].Started? then 1 else 0)
  {
    hide Leads, AtRest, Clean, Tasks.Next, Tasks.Allowed, StatusOps;
    LeadsNowhere(k.memory, OpsOf(k, call, k'), evs, k'.memory);
    assert call in [call];
    if Waits(call) && Reaps(k, k') { StatusPokes(k, call, k'); }
    if RingOnly(call) || Waits(call) { NoCosts(OpsOf(k, call, k'), evs); }
  }

  lemma {:induction false} NoCosts(ops: seq<Op>, evs: seq<Event>)
    requires |ops| == |evs| && forall op <- ops :: op.ReapOp? || op.PokeOp?
    ensures Conservation.HeapPages(ops) == 0 && Conservation.Abandoned(ops, evs) == 0
    decreases |ops|
  {
    if ops != [] {
      var n := |ops| - 1;
      assert ops[n] in ops && forall op <- ops[..n] :: op in ops;
      NoCosts(ops[..n], evs[..n]);
    }
  }

  lemma OneTask(ring: seq<Tasks.Task>)
    requires |ring| == 1 && 0 in Ids(ring)
    ensures Ids(ring) == {0}
  {
    assert forall t :: t in ring <==> t == ring[0];
  }

  lemma NoPrograms(k: State)
    requires Matched(k) && |k.tasks.ring| == 1
    ensures k.memory.dirs == map[]
  {
    hide AtRest, Tasks.Sound, WasReaped;
    OneTask(k.tasks.ring);
  }

  /** The shell alone: no program has memory. */
  lemma AloneSeparate(k: State)
    requires Matched(k) && |k.tasks.ring| == 1
    ensures k.memory.dirs == map[] && Conservation.Separate(k.memory) && Conservation.FramesFor(k.memory.View().spaces) == 0
  {
    NoPrograms(k);
    hide Matched, SpaceOf, Conservation.SpacesApart;
    assert Conservation.AllPages(k.memory.View().spaces) == {} && Conservation.AllTables(k.memory.View().spaces) == {};
  }

  /** Whatever programs are run, fork one another, exit and are waited for: whenever the shell is alone again, every frame that
      was free at first is free again, but for the pages the kernel's heap has grown by and what run commands that
      failed have left behind. */
  lemma FramesReturn(trail: seq<State>, calls: seq<Call>, evs: seq<seq<Event>>)
    requires Runs(trail, calls, evs) && Matched(trail[0]) && CleanFiles(calls)
    requires |trail[0].tasks.ring| == 1 && |trail[|evs|].tasks.ring| == 1
    ensures |FreeOf(trail[|evs|].memory.x)| + Grows(calls) + FailedRuns(calls, evs) <= |FreeOf(trail[0].memory.x)|
    ensures FailedRuns(calls, evs) == 0 ==> |FreeOf(trail[|evs|].memory.x)| + Grows(calls) == |FreeOf(trail[0].memory.x)|
  {
    hide Matched, Calls, AtRest, FreeOf, Conservation.LeftFrames, Ownerless, Conservation.FramesFor, Conservation.Separate;
    hide LeakFreeOp, Abandons, Conservation.HeldFrames, ViewOf, Trail;
    MemoryKept(trail, calls, evs, 1);
    MatchedRests(trail[0]);
    AloneSeparate(trail[0]);
    AloneSeparate(trail[|evs|]);
    var ops, memEvs := MemoryRun(trail, calls, evs);
    var moments :| LeadsBy(moments, trail[0].memory, ops, memEvs, trail[|evs|].memory);
    Conservation.Conserved(moments, ops, memEvs);
    if FailedRuns(calls, evs) == 0 { NoneAbandoned(ops, memEvs); }
  }

  lemma {:induction false} NoneAbandoned(ops: seq<Op>, evs: seq<Event>)
    requires |ops| == |evs| && Conservation.Abandoned(ops, evs) == 0
    ensures forall i :: 0 <= i < |evs| ==> !Abandons(ops[i], evs[i])
    decreases |evs|
  {
    if evs != [] { NoneAbandoned(ops[..|evs| - 1], evs[..|evs| - 1]); }
  }

  // ---------------------------------------------------------------- the tasks and the address spaces together

  lemma BootMatched(memory: Moment)
    requires AtRest(memory) && memory.dirs == map[] && memory.next == 1
    ensures Matched(State(Tasks.Booted(), memory))
  {
    Tasks.BootedSound();
    var ring := Tasks.Booted().ring;
    assert forall t :: t in ring <==> t == ring[0];
  }

  lemma AtBoot(processes: ProcessTable)
    requires processes.Valid() && processes.dirs == map[] && processes.nextId == 1
    ensures Matched(State(Tasks.Booted(), processes.Now()))
  {
    hide AtRest, Matched, Tasks.Sound;
    processes.Rests();
    BootMatched(processes.Now());
  }

  /** A call that cannot be followed: an exit code for an address in the kernel's own half, or an operation on the address
      spaces that the code takes for granted. */
  ghost predicate Untold(k: State, call: Call) {
    if RingOnly(call) then false
    else if Waits(call) then !UserStatus(call)
    else Unfollowed(k.memory.x, k.memory.dirs, MemoryOp(Runner(k), call))
  }

  /** Whether a byte is mapped for a process. */
  method IsMapped(processes: ProcessTable, p: nat, virt: nat) returns (mapped: bool)
    requires processes.Valid() && p in processes.dirs && virt < 0x1_0000_0000
    ensures p in processes.Now().View().spaces && (mapped <==> PageOf(virt) in processes.Now().View().spaces[p])
  {
    hide AtRest, Stepped, PageOf, SpaceOf;
    processes.Rests();
    Conservation.ViewKeys(processes.Now());
    DirsAreLive(processes.Now());
    var t := UserAccess.Translate(processes.mem, processes.dirs[p], virt);
    mapped := !t.Missing?;
    RestImage(processes.Now());
    InSpace(processes.mem.image, processes.dirs[p], PageOf(virt));
  }

  lemma DirsAreLive(a: Moment)
    requires AtRest(a)
    ensures forall p <- a.dirs :: a.dirs[p] in a.x.m.dirs
  {
    hide Sound, Tidy;
  }

  lemma RestImage(a: Moment)
    requires AtRest(a)
    ensures a.x.image.Keys == a.x.m.leaves.Keys
  {
    hide Tidy;
    ImageShape(a.x);
  }

  /** The moment a process table is at. */
  ghost function MomentOf(processes: ProcessTable): Moment
    reads processes, processes.mem, processes.mem.pmm, processes.mem.pmm.frameBitmap, processes.mem.pmm.frameRefcount
    reads processes.mem.ram
    requires processes.Valid()
  {
    processes.Now()
  }

  /** The first of four bytes that is not mapped. */
  method FindMissing(processes: ProcessTable, p: nat, virt: nat) returns (j: nat)
    requires processes.Valid() && p in processes.dirs && virt + 3 < 0x1_0000_0000
    ensures p in MomentOf(processes).View().spaces && j == FirstMissing(MomentOf(processes).View().spaces[p], virt, 0)
  {
    hide AtRest, PageOf, ProcessTable.Valid, ProcessTable.Now, ViewOf;
    ghost var a := MomentOf(processes);
    j := 0;
    while true
      invariant j < 4 && (j > 0 ==> p in a.View().spaces)
      invariant p in a.View().spaces ==> FirstMissing(a.View().spaces[p], virt, j) == FirstMissing(a.View().spaces[p], virt, 0)
      decreases 4 - j
    {
      var mapped := IsMapped(processes, p, virt + j);
      if !mapped { return; }
      j := j + 1;
      if j == 4 { return; }
    }
  }

  /** Bytes stored by the kernel for a process, one after the other. */
  method StoreBytes(processes: ProcessTable, p: nat, virt: nat, bytes: seq<bv8>) returns (evs: seq<Event>)
    requires processes.Valid() && PageOf(virt).pd >= IDENTITY_TABLES && virt + |bytes| <= 0x1_0000_0000
    modifies processes, processes.mem, processes.mem.ram
    ensures processes.Valid() && Leads(old(MomentOf(processes)), PokeOps(p, virt, bytes), evs, MomentOf(processes))
  {
    hide AtRest, Stepped, Leads, ProcessTable.Valid, ProcessTable.Now, PageOf;
    ghost var a := MomentOf(processes);
    processes.Rests();
    LeadsNone(a);
    evs := [];
    for i := 0 to |bytes|
      invariant processes.Valid() && Leads(a, PokeOps(p, virt, bytes)[..i], evs, MomentOf(processes))
    {
      ghost var before := MomentOf(processes);
      HigherPage(virt, i);
      var ev := processes.StoreByKernel(p, virt + i, bytes[i]);
      processes.Rests();
      LeadsMore(a, PokeOps(p, virt, bytes)[..i], evs, before, PokeOp(p, virt + i, bytes[i]), ev.value, MomentOf(processes));
      assert PokeOps(p, virt, bytes)[..i + 1] == PokeOps(p, virt, bytes)[..i] + [PokeOp(p, virt + i, bytes[i])];
      evs := evs + [ev.value];
    }
    assert PokeOps(p, virt, bytes)[..|bytes|] == PokeOps(p, virt, bytes);
  }

  lemma HigherPage(virt: nat, i: nat)
    ensures PageOf(virt + i).pd >= PageOf(virt).pd
  {
  }

  class Machine {
    const tasks: Scheduler.TaskList
    const processes: ProcessTable

    ghost function Now(): State
      reads this, tasks, tasks.ring
      reads processes, processes.mem, processes.mem.pmm, processes.mem.pmm.frameBitmap, processes.mem.pmm.frameRefcount
      reads processes.mem.ram
      requires processes.Valid()
    {
      State(tasks.Now(), MomentOf(processes))
    }

    ghost predicate Valid()
      reads this, tasks, tasks.ring
      reads processes, processes.mem, processes.mem.pmm, processes.mem.pmm.frameBitmap, processes.mem.pmm.frameRefcount
      reads processes.mem.ram
    {
      tasks.Valid() && processes.Valid() && Matched(Now())
    }

    /** The shell, as task 0, over address spaces of which none is a program's. */
    constructor (processes: ProcessTable)
      requires processes.Valid() && processes.dirs == map[] && processes.nextId == 1
      ensures Valid() && this.processes == processes && Now() == State(Tasks.Booted(), old(processes.Now()))
      ensures fresh(tasks) && fresh(tasks.ring)
    {
      hide AtRest, Tasks.Sound, Matched, Stepped, ProcessTable.Valid, ProcessTable.Now, Scheduler.View;
      hide Scheduler.TaskList.Shape, Scheduler.TaskList.Valid;
      var tasks := new Scheduler.TaskList();
      this.tasks, this.processes := tasks, processes;
      new;
      AtBoot(processes);
    }

    /** The calls that only concern the ring. */
    method Arrange(call: Call)
      requires Valid() && RingOnly(call) && CanCall(Now(), call)
      modifies tasks, tasks.ring
      ensures Valid() && Calls(old(Now()), call, [], Now())
      ensures forall m :: m in tasks.ring ==> m in old(tasks.ring) || fresh(m)
    {
      hide AtRest, Tasks.Sound, Matched, Tasks.Next, Tasks.Allowed, Stepped, CleanFiles, Leads;
      hide ProcessTable.Valid, ProcessTable.Now, Scheduler.TaskList.Shape, Scheduler.View;
      tasks.Step(TaskEvent(call));
      processes.Rests();
      LeadsNone(MomentOf(processes));
      CallMatched(old(Now()), call, [], Now());
    }

    /** Once around the loop of a wait call, as far as the ring goes. */
    method ReapTask(call: Call) returns (reaped: Option<Tasks.Reaping>)
      requires Valid() && Waits(call) && CanCall(Now(), call)
      modifies tasks, tasks.ring
      ensures tasks.Valid() && tasks.Now() == Tasks.Next(old(tasks.Now()), TaskEvent(call))
      ensures tasks.Now().reaped == old(tasks.Now().reaped) + if reaped.Some? then [reaped.value] else []
      ensures forall m :: m in tasks.ring ==> m in old(tasks.ring) || fresh(m)
    {
      hide AtRest, Tasks.Sound, Matched, Tasks.Next, Tasks.Allowed;
      hide ProcessTable.Valid, ProcessTable.Now, Scheduler.TaskList.Shape, Scheduler.View;
      var self := tasks.current.id;
      reaped := None;
      if call.WaitAny? {
        var done, pid, code := tasks.WaitAny();
        if pid >= 0 { reaped := Some(Tasks.Reaping(self, pid, code)); }
      } else {
        var done, code := tasks.WaitForId(call.pid);
        if done { reaped := Some(Tasks.Reaping(self, call.pid, code)); }
      }
    }

    /** The memory's part of a wait call that has reaped: the address space of the task goes, and the exit code is stored. */
    method ReapMemory(call: Call, self: nat, missing: nat, reaped: Tasks.Reaping, ghost k: State) returns (evs: seq<Event>)
      requires processes.Valid() && MomentOf(processes) == k.memory && Waits(call) && UserStatus(call) && self == Runner(k)
      requires call.WaitAny? && call.status != 0 ==> missing == FirstMissing(RunnerSpace(k), call.status, 0)
      requires tasks.Now().reaped == k.tasks.reaped + [reaped]
      modifies processes, processes.mem, processes.mem.ram, processes.mem.pmm, processes.mem.pmm.frameBitmap
      modifies processes.mem.pmm.frameRefcount
      ensures processes.Valid()
      ensures Leads(k.memory, OpsOf(k, call, State(tasks.Now(), MomentOf(processes))), evs, MomentOf(processes))
    {
      hide AtRest, Stepped, Leads, ProcessTable.Valid, ProcessTable.Now, Scheduler.View, RunnerSpace, PageOf;
      processes.Rests();
      var ev := processes.Reap(reaped.pid);
      processes.Rests();
      ghost var m := MomentOf(processes);
      LeadsOne(k.memory, ReapOp(reaped.pid), ev.value, m);
      LeadsNone(m);
      var more: seq<Event>, word := [], reaped.code % 0x1_0000_0000;
      if call.WaitAny? && call.status != 0 {
        if missing < 4 {
          HigherPage(call.status, missing);
          more := StoreBytes(processes, self, call.status + missing, [WordByte(word, missing)]);
          assert PokeOps(self, call.status + missing, [WordByte(word, missing)])
              == [PokeOp(self, call.status + missing, WordByte(word, missing))];
        } else {
          more := StoreBytes(processes, self, call.status, [WordByte(word, 0), WordByte(word, 1), WordByte(word, 2), WordByte(word, 3)]);
        }
      }
      ghost var k' := State(tasks.Now(), MomentOf(processes));
      LeadsJoin(k.memory, [ReapOp(reaped.pid)], [ev.value], m, StatusOps(k, call, k'), more, k'.memory);
      evs := [ev.value] + more;
    }

    /** Which of the bytes for the exit code is the first whose page is not there. */
    method LookUp(call: Call, ghost k: State) returns (self: nat, missing: nat)
      requires Valid() && k == Now() && CanCall(k, call)
      ensures self == Runner(k)
      ensures call.WaitAny? && call.status != 0 && UserStatus(call) ==> missing == FirstMissing(RunnerSpace(k), call.status, 0)
    {
      hide AtRest, Tasks.Sound, Matched, Tasks.Allowed, FirstMissing, PageOf, ViewOf, ValidOp;
      hide ProcessTable.Valid, ProcessTable.Now, Scheduler.TaskList.Shape, Scheduler.View, Scheduler.TaskList.Valid;
      RunnerIs(tasks);
      self, missing := tasks.current.id, 4;
      if call.WaitAny? && call.status != 0 && UserStatus(call) {
        RunnerHere(processes, k);
        missing := FindMissing(processes, self, call.status);
      }
    }

    /** Once around the loop of a wait call; the address space of the task that it reaps is given back, and the exit code stored
        where the caller asks for it. */
    method Await(call: Call) returns (ok: bool, evs: seq<Event>)
      requires Valid() && Waits(call) && CanCall(Now(), call)
      modifies tasks, tasks.ring
      modifies processes, processes.mem, processes.mem.ram, processes.mem.pmm, processes.mem.pmm.frameBitmap
      modifies processes.mem.pmm.frameRefcount
      ensures ok ==> Valid() && Calls(old(Now()), call, evs, Now())
      ensures !ok ==> Untold(old(Now()), call)
      ensures forall m :: m in tasks.ring ==> m in old(tasks.ring) || fresh(m)
    {
      hide AtRest, Tasks.Sound, Matched, Tasks.Next, Stepped, Leads, FirstMissing, StatusOps, RunnerSpace, UserStatus, Calls, CanCall;
      hide ProcessTable.Valid, ProcessTable.Now, Scheduler.TaskList.Shape, Scheduler.View, Scheduler.TaskList.Valid, ViewOf;
      ghost var k := Now();
      var self, missing := LookUp(call, k);
      var reaped := ReapTask(call);
      processes.Rests();
      if reaped.None? {
        LeadsNone(k.memory);
        WaitCalls(k, call, [], Now());
        CallMatched(k, call, [], Now());
        return true, [];
      }
      if !UserStatus(call) { return false, []; }
      evs := ReapMemory(call, self, missing, reaped.value, k);
      processes.Rests();
      hide OpsOf;
      WaitCalls(k, call, evs, Now());
      CallMatched(k, call, evs, Now());
      ok := true;
    }

    /** The memory's part of a call of the running task, of the shell to start a program, or of either when the kernel's heap
        grows. */
    method ActOnMemory(call: Call, ghost k: State) returns (ev: Option<Event>)
      requires Valid() && k == Now() && !RingOnly(call) && !Waits(call) && CanCall(k, call)
      requires call.Grow? ==> call.heapEnd / FRAME_SIZE in processes.mem.pmm.reserved
      modifies processes, processes.mem, processes.mem.ram, processes.mem.pmm, processes.mem.pmm.frameBitmap
      modifies processes.mem.pmm.frameRefcount
      ensures ev.None? ==> Untold(k, call)
      ensures ev.Some? ==> processes.Valid() && Stepped(k.memory, MemoryOp(Runner(k), call), ev.value, MomentOf(processes))
    {
      hide AtRest, Tasks.Sound, Matched, Tasks.Next, Stepped, CleanFiles, Unfollowed, Leads;
      hide ProcessTable.Valid, ProcessTable.Now, Scheduler.View, Scheduler.TaskList.Shape, Scheduler.TaskList.Valid;
      RunnerIs(tasks);
      TableIs(processes);
      CanAct(k, call);
      hide CanCall, ValidOp, Tasks.Allowed, Untold, MemoryOp;
      ev := processes.Step(MemoryOp(tasks.current.id, call));
      if ev.None? { LostCall(k, call); }
    }

    method Act(call: Call) returns (ok: bool, evs: seq<Event>)
      requires Valid() && !RingOnly(call) && !Waits(call) && CanCall(Now(), call)
      requires call.Grow? ==> call.heapEnd / FRAME_SIZE in processes.mem.pmm.reserved
      modifies tasks, tasks.ring
      modifies processes, processes.mem, processes.mem.ram, processes.mem.pmm, processes.mem.pmm.frameBitmap
      modifies processes.mem.pmm.frameRefcount
      ensures ok ==> Valid() && Calls(old(Now()), call, evs, Now())
      ensures !ok ==> Untold(old(Now()), call)
      ensures forall m :: m in tasks.ring ==> m in old(tasks.ring) || fresh(m)
    {
      hide AtRest, Tasks.Sound, Matched, Tasks.Next, Stepped, CleanFiles, Unfollowed, Leads, Untold, MemoryOp, Calls;
      hide ProcessTable.Valid, ProcessTable.Now, Scheduler.View, Scheduler.TaskList.Shape, Scheduler.TaskList.Valid;
      ghost var k := Now();
      CanAct(k, call);
      processes.Rests();
      var ev := ActOnMemory(call, k);
      if ev.None? { return false, []; }
      evs := [ev.value];
      hide CanCall, Tasks.Allowed;
      if (call.Fork? || call.Run?) && (ev.value.Child? || ev.value.Started?) { var child := tasks.Create(); }
      processes.Rests();
      ActCalls(k, call, ev.value, Now());
      CallMatched(k, call, evs, Now());
      ok := true;
    }

    /** Any call, unless it cannot be followed. */
    method Perform(call: Call) returns (ok: bool, evs: seq<Event>)
      requires Valid() && CanCall(Now(), call)
      requires call.Grow? ==> call.heapEnd / FRAME_SIZE in processes.mem.pmm.reserved
      modifies tasks, tasks.ring
      modifies processes, processes.mem, processes.mem.ram, processes.mem.pmm, processes.mem.pmm.frameBitmap
      modifies processes.mem.pmm.frameRefcount
      ensures ok ==> Valid() && Calls(old(Now()), call, evs, Now())
      ensures !ok ==> Untold(old(Now()), call)
      ensures forall m :: m in tasks.ring ==> m in old(tasks.ring) || fresh(m)
    {
      hide AtRest, Tasks.Sound, Matched, Tasks.Next, Tasks.Allowed, Stepped, Calls, CanCall, Untold;
      hide ProcessTable.Valid, ProcessTable.Now, Scheduler.View, Scheduler.TaskList.Shape;
      if RingOnly(call) {
        Arrange(call);
        ok, evs := true, [];
      } else if Waits(call) {
        ok, evs := Await(call);
      } else {
        ok, evs := Act(call);
      }
    }

    /** Any calls, one after the other, for as long as each can be followed and none halts the machine. */
    method Run(calls: seq<Call>) returns (ok: bool, evs: seq<seq<Event>>, ghost trail: seq<State>)
      requires Valid() && Playable(Now(), calls)
      requires forall call <- calls :: call.Grow? ==> call.heapEnd / FRAME_SIZE in processes.mem.pmm.reserved
      modifies tasks, tasks.ring
      modifies processes, processes.mem, processes.mem.ram, processes.mem.pmm, processes.mem.pmm.frameBitmap
      modifies processes.mem.pmm.frameRefcount
      ensures |evs| <= |calls| && Runs(trail, calls[..|evs|], evs) && trail[0] == old(Now())
      ensures forall k <- trail :: Matched(k)
      ensures ok ==> Valid() && Now() == trail[|evs|]
      ensures ok && |evs| < |calls| ==> |evs| > 0 && Halts(evs[|evs| - 1])
      ensures !ok ==> |evs| < |calls| && Untold(trail[|evs|], calls[|evs|])
    {
      hide AtRest, Tasks.Sound, Matched, Stepped, Calls, CanCall, Untold, Playable;
      hide ProcessTable.Valid, ProcessTable.Now, Scheduler.View, Scheduler.TaskList.Shape, Scheduler.TaskList.Valid;
      ghost var k := Now();
      evs, trail := [], [k];
      while |evs| < |calls| && (evs == [] || !Halts(evs[|evs| - 1]))
        invariant |evs| <= |calls| && Runs(trail, calls[..|evs|], evs) && trail[0] == k
        invariant Valid() && Now() == trail[|evs|] && forall k <- trail :: Matched(k)
        invariant forall m :: m in tasks.ring ==> m in old(tasks.ring) || fresh(m)
        decreases |calls| - |evs|
      {
        var call := calls[|evs|];
        PlayableNow(k, calls, trail, evs);
        forall i | 0 <= i < |tasks.ring|
          ensures fresh(tasks.ring[i]) || exists j :: 0 <= j < old(|tasks.ring|) && tasks.ring[i] == old(tasks.ring)[j]
        {
          assert tasks.ring[i] in tasks.ring;
        }
        var more;
        ok, more := Perform(call);
        if !ok { return; }
        RunsMore(trail, calls[..|evs|], evs, call, more, Now());
        assert calls[..|evs| + 1] == calls[..|evs|] + [call];
        evs, trail := evs + [more], trail + [Now()];
      }
      ok := true;
    }
  }

  predicate Halts(evs: seq<Event>) { evs != [] && evs[|evs| - 1].Halted? }

  /** Calls of which each can be made when its turn comes, whatever came of those before. */
  ghost predicate Playable(k: State, calls: seq<Call>) {
    forall trail: seq<State>, evs: seq<seq<Event>> ::
      |evs| < |calls| && Runs(trail, calls[..|evs|], evs) && trail[0] == k ==> CanCall(trail[|evs|], calls[|evs|])
  }

  lemma PlayableNow(k: State, calls: seq<Call>, trail: seq<State>, evs: seq<seq<Event>>)
    requires Playable(k, calls) && |evs| < |calls| && Runs(trail, calls[..|evs|], evs) && trail[0] == k
    ensures CanCall(trail[|evs|], calls[|evs|])
  {
    hide CanCall, Runs;
  }

  lemma CanAct(k: State, call: Call)
    requires CanCall(k, call) && !RingOnly(call) && !Waits(call)
    ensures ValidOp(MemoryOp(Runner(k), call)) && Tasks.Allowed(k.tasks, Tasks.Create)
    ensures call.Grow? <==> MemoryOp(Runner(k), call).HeapOp?
    ensures call.Grow? ==> MemoryOp(Runner(k), call).heapEnd == call.heapEnd
  {
  }

  lemma LostCall(k: State, call: Call)
    requires !RingOnly(call) && !Waits(call) && Unfollowed(k.memory.x, k.memory.dirs, MemoryOp(Runner(k), call))
    ensures Untold(k, call)
  {
  }

  lemma ActCalls(k: State, call: Call, ev: Event, k': State)
    requires CanCall(k, call) && !RingOnly(call) && !Waits(call) && AtRest(k.memory) && AtRest(k'.memory)
    requires Stepped(k.memory, MemoryOp(Runner(k), call), ev, k'.memory)
    requires k'.tasks == if (call.Fork? || call.Run?) && (ev.Child? || ev.Started?) then Tasks.Next(k.tasks, Tasks.Create) else k.tasks
    ensures Calls(k, call, [ev], k')
  {
    hide AtRest, Stepped, Tasks.Next, Leads;
    LeadsOne(k.memory, MemoryOp(Runner(k), call), ev, k'.memory);
  }

  lemma WaitCalls(k: State, call: Call, evs: seq<Event>, k': State)
    requires CanCall(k, call) && Waits(call) && k'.tasks == Tasks.Next(k.tasks, TaskEvent(call)) && (Reaps(k, k') ==> UserStatus(call))
    requires Leads(k.memory, OpsOf(k, call, k'), evs, k'.memory)
    ensures Calls(k, call, evs, k')
  {
    hide AtRest, Stepped, Tasks.Next, Tasks.Allowed, Leads, OpsOf;
  }

  lemma RunnerIs(tasks: Scheduler.TaskList)
    requires tasks.Valid()
    ensures tasks.Now().ring != [] && tasks.current.id == tasks.Now().ring[0].id
  {
    hide Tasks.Sound, Scheduler.NoTwice, Scheduler.Linked, Scheduler.ParentsIn;
  }

  lemma TableIs(processes: ProcessTable)
    requires processes.Valid()
    ensures processes.mem.Valid() && processes.mem.Apart() && MomentOf(processes) == processes.Now()
    ensures MomentOf(processes).x == processes.mem.Now() && MomentOf(processes).dirs == processes.dirs
  {
  }

  lemma RunnerHere(processes: ProcessTable, k: State)
    requires processes.Valid() && Matched(k) && k.memory == MomentOf(processes)
    ensures Runner(k) != 0 ==> Runner(k) in processes.dirs
  {
    Running(k);
  }
}
