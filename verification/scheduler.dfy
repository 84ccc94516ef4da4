/** The task list of kernel/task.c as it is kept in memory: records linked both ways in a circle, and the
    calls that schedule, block, wake, end and reap tasks, each of which is a step of the Tasks system. */
module Scheduler {
  import opened Options
  import opened Tasks
  import opened TaskEffects

  class Node {
    const id: nat
    var next: Node
    var prev: Node
    var state: State
    const parent: Node?
    var exitCode: int
    ghost var waiting: Waiting

    constructor (id: nat, parent: Node?)
      ensures this.id == id && this.parent == parent && state == Ready && exitCode == 0 && waiting == No
    {
      this.id, this.parent, state, exitCode, waiting := id, parent, Ready, 0, No;
      next, prev := this, this;
    }
  }

  ghost function Info(n: Node): Task
    reads n
  {
    Task(n.id, n.state, if n.parent == null then None else Some(n.parent.id), n.exitCode, n.waiting)
  }

  ghost function View(ring: seq<Node>): (v: seq<Task>)
    reads ring
    ensures |v| == |ring| && forall i :: 0 <= i < |v| ==> v[i] == Info(ring[i])
  {
    seq(|ring|, i requires 0 <= i < |ring| reads ring => Info(ring[i]))
  }

  ghost predicate NoTwice(ring: seq<Node>) { forall i, j :: 0 <= i < j < |ring| ==> ring[i] != ring[j] }

  function Behind(ring: seq<Node>, i: nat): Node
    requires i < |ring|
  {
    if i + 1 < |ring| then ring[i + 1] else ring[0]
  }

  function Ahead(ring: seq<Node>, i: nat): Node
    requires i < |ring|
  {
    if i > 0 then ring[i - 1] else ring[|ring| - 1]
  }

  ghost predicate NextAt(ring: seq<Node>, i: nat)
    requires i < |ring|
    reads ring
  {
    ring[i].next == Behind(ring, i)
  }

  ghost predicate PrevAt(ring: seq<Node>, i: nat)
    requires i < |ring|
    reads ring
  {
    ring[i].prev == Ahead(ring, i)
  }

  ghost predicate LinkAt(ring: seq<Node>, i: nat)
    requires i < |ring|
    reads ring
  {
    NextAt(ring, i) && PrevAt(ring, i)
  }

  /** Links lead once around the ring, in both directions. */
  ghost predicate Linked(ring: seq<Node>)
    reads ring
  {
    forall i :: 0 <= i < |ring| ==> LinkAt(ring, i)
  }

  /** No parent has been reaped. */
  ghost predicate ParentsIn(ring: seq<Node>) { forall n <- ring :: n.parent == null || n.parent in ring }

  function Rotation(ring: seq<Node>, k: nat): (r: seq<Node>)
    requires k < |ring|
    ensures |r| == |ring|
  {
    ring[k..] + ring[..k]
  }

  lemma RotatedAt(ring: seq<Node>, k: nat, i: nat)
    requires k < |ring| && i < |ring|
    ensures Rotation(ring, k)[i] == ring[if i + k < |ring| then i + k else i + k - |ring|]
  {
  }

  lemma RotatedLink(ring: seq<Node>, k: nat, i: nat)
    requires Linked(ring) && k < |ring| && i < |ring|
    ensures LinkAt(Rotation(ring, k), i)
  {
    var n := |ring|;
    hide Rotation;
    RotatedAt(ring, k, i);
    RotatedAt(ring, k, if i + 1 < n then i + 1 else 0);
    RotatedAt(ring, k, if i > 0 then i - 1 else n - 1);
    assert LinkAt(ring, if i + k < n then i + k else i + k - n);
  }

  lemma RotatedMembers(ring: seq<Node>, k: nat)
    requires k < |ring|
    ensures forall m :: m in Rotation(ring, k) <==> m in ring
    ensures NoTwice(ring) ==> NoTwice(Rotation(ring, k))
    ensures ParentsIn(ring) ==> ParentsIn(Rotation(ring, k))
  {
    var r := Rotation(ring, k);
    assert ring == ring[..k] + ring[k..];
    assert forall m :: m in r <==> m in ring;
    assert ParentsIn(ring) ==> ParentsIn(r);
    hide ParentsIn, Rotation;
    if NoTwice(ring) {
      forall i, j | 0 <= i < j < |r| ensures r[i] != r[j] { RotatedAt(ring, k, i); RotatedAt(ring, k, j); }
    }
  }

  lemma Rotated(ring: seq<Node>, k: nat)
    requires NoTwice(ring) && Linked(ring) && ParentsIn(ring) && k < |ring|
    ensures NoTwice(Rotation(ring, k)) && Linked(Rotation(ring, k)) && ParentsIn(Rotation(ring, k))
    ensures View(Rotation(ring, k)) == View(ring)[k..] + View(ring)[..k]
    ensures forall m :: m in Rotation(ring, k) <==> m in ring
  {
    var r := Rotation(ring, k);
    RotatedMembers(ring, k);
    RotatedView(ring, k);
    hide View, Rotation, NoTwice, ParentsIn, LinkAt;
    forall i | 0 <= i < |r| ensures LinkAt(r, i) { RotatedLink(ring, k, i); }
  }

  lemma RotatedView(ring: seq<Node>, k: nat)
    requires k < |ring|
    ensures View(Rotation(ring, k)) == View(ring)[k..] + View(ring)[..k]
  {
    hide View, Info;
    var v, w := View(Rotation(ring, k)), View(ring)[k..] + View(ring)[..k];
    forall i | 0 <= i < |ring| ensures v[i] == w[i] {
      RotatedAt(ring, k, i);
      assert w[i] == View(ring)[if i + k < |ring| then i + k else i + k - |ring|];
    }
  }

  class TaskList {
    var current: Node
    var nextId: nat
    var taskCount: nat
    ghost var ring: seq<Node>
    ghost var exits: map<nat, int>
    ghost var parents: map<nat, nat>
    ghost var reaped: seq<Reaping>

    ghost function Now(): System
      reads this, ring
    {
      System(View(ring), nextId, exits, parents, reaped)
    }

    ghost predicate Shape()
      reads this, ring
    {
      && ring != [] && current == ring[0] && taskCount == |ring|
      && NoTwice(ring) && Linked(ring) && ParentsIn(ring)
    }

    ghost predicate Valid()
      reads this, ring
    {
      Shape() && Sound(Now())
    }

    /** task_init. */
    constructor ()
      ensures Valid() && Now() == Booted() && fresh(ring)
    {
      var main := new Node(0, null);
      main.next, main.prev := main, main;
      current, nextId, taskCount, ring := main, 1, 1, [main];
      exits, parents, reaped := map[], map[], [];
      new;
      BootedSound();
      assert LinkAt(ring, 0);
      assert View(ring) == [Task(0, Ready, None, 0, No)];
    }

    /** The search of schedule: the next READY task, or the running one again. */
    method FindNext() returns (next: Node, ghost i: nat)
      requires Shape()
      ensures i == NextReady(View(ring), 1) && next == (if i < |ring| then ring[i] else ring[0])
      ensures next == current <==> i == |ring|
    {
      hide NextReady;
      assert LinkAt(ring, 0);
      next, i := current.next, 1;
      while next.state != Ready && next != current
        invariant 1 <= i <= |ring| && next == (if i < |ring| then ring[i] else ring[0])
        invariant NextReady(View(ring), 1) == NextReady(View(ring), i)
        decreases |ring| - i
      {
        assert LinkAt(ring, i);
        NotReady(View(ring), i);
        next, i := next.next, i + 1;
      }
      ReadyAt(View(ring), i);
    }

    /** schedule, once scheduling is enabled. */
    method Schedule()
      requires Valid()
      modifies `current, `ring
      ensures Valid() && Now() == Next(old(Now()), Yield)
      ensures forall m :: m in ring <==> m in old(ring)
    {
      hide Sound, Linked, ParentsIn, NoTwice, NextReady, View;
      SwitchSound(Now());
      ghost var i;
      var next;
      next, i := FindNext();
      if next == current { return; }
      Rotated(ring, i);
      current := next;
      ring := Rotation(ring, i);
    }

    /** The state of a task's record rewritten. */
    method Put(t: Node, state: State, exitCode: int, ghost waiting: Waiting, ghost k: nat)
      requires Shape() && k < |ring| && ring[k] == t
      modifies t`state, t`exitCode, t`waiting
      ensures Shape() && View(ring) == old(View(ring))[k := old(View(ring))[k].(state := state, exitCode := exitCode, waiting := waiting)]
    {
      hide View;
      ghost var v := View(ring);
      assert forall i :: 0 <= i < |ring| ==> LinkAt(ring, i);
      t.state, t.exitCode, t.waiting := state, exitCode, waiting;
      forall i | 0 <= i < |ring| ensures LinkAt(ring, i) { assert old(LinkAt(ring, i)); }
      assert View(ring) == v[k := v[k].(state := state, exitCode := exitCode, waiting := waiting)];
    }

    /** task_block. */
    method Block(ghost waiting: Waiting)
      requires Valid() && CanSleep(Now(), waiting)
      modifies this, ring
      ensures Valid() && Now() == BlockedNow(old(Now()), waiting) && old(current).state == Blocked
      ensures forall m :: m in ring <==> m in old(ring)
    {
      AsleepSound(Now(), waiting);
      hide Sound, CanSleep, Linked, NoTwice, ParentsIn;
      Put(current, Blocked, current.exitCode, waiting, 0);
      assert Now() == Asleep(old(Now()), waiting);
      Schedule();
    }

    /** task_unblock. */
    method Unblock(t: Node)
      requires Shape() && Distinct(View(ring)) && t in ring
      modifies t`state, t`exitCode, t`waiting
      ensures Shape() && View(ring) == Unblocked(old(View(ring)), t.id)
      ensures t.state == if old(t.state) == Blocked then Ready else old(t.state)
      ensures t.exitCode == old(t.exitCode)
    {
      hide Distinct, Linked, NoTwice, ParentsIn, View;
      ghost var k :| 0 <= k < |ring| && ring[k] == t;
      AtIndex(View(ring), k);
      if t.state == Blocked { Put(t, Ready, t.exitCode, t.waiting, k); }
    }

    /** A task becomes a zombie, and its parent is woken. */
    method MarkEnded(t: Node, code: int, ghost j: nat)
      requires Valid() && j < |ring| && ring[j] == t && t.state != Zombie
      modifies ring, `exits
      ensures Valid() && Now() == Ended(old(Now()), j, code) && t.state == Zombie && t.exitCode == code
    {
      ghost var s := Now();
      assert t.parent != t by { NotOwnParent(s, j); }
      EndedSound(s, j, code);
      DistinctUpdate(s, j, code);
      assert t.parent == null || t.parent in ring by { assert t in ring; }
      hide Sound, Distinct, Linked, NoTwice, ParentsIn, Unblocked, View;
      Put(t, Zombie, code, t.waiting, j);
      exits := exits[t.id := code];
      if t.parent != null { Unblock(t.parent); }
      assert Now() == Ended(s, j, code);
    }

    /** task_exit_current, up to the switch away; a last task halts. */
    method ExitCurrent(code: int)
      requires Valid() && current.state != Zombie
      modifies this, ring
      ensures Valid() && Now() == Next(old(Now()), Exit(code)) && old(current).state == Zombie && old(current).exitCode == code
      ensures forall m :: m in ring ==> m in old(ring) || fresh(m)
    {
      hide Sound, Linked, ParentsIn, NoTwice, Ended, Switched, View;
      MarkEnded(current, code, 0);
      if taskCount <= 1 { return; }
      Schedule();
    }

    /** task_force_terminate. */
    method ForceTerminate(t: Node, code: int)
      requires Valid() && t in ring && t.state != Zombie
      modifies this, ring
      ensures Valid() && Now() == Next(old(Now()), if t == old(current) then Exit(code) else Terminate(t.id, code))
      ensures t.state == Zombie && t.exitCode == code
      ensures forall m :: m in ring ==> m in old(ring) || fresh(m)
    {
      hide Linked, NoTwice, ParentsIn, Ended, View, Unblocked;
      if t == current {
        ExitCurrent(code);
        return;
      }
      SoundDistinct(Now());
      hide Sound, Distinct, Next, Shape;
      ghost var j :| 0 <= j < |ring| && ring[j] == t;
      TerminateIs(Now(), j, code);
      MarkEnded(t, code, j);
    }

    /** The four links that put a record behind the running task's. */
    method SetLinks(t: Node)
      requires Shape() && t !in ring
      modifies ring, t
      ensures t.next == Behind(ring, 0) && t.prev == ring[0] && ring[0].next == t && Behind(ring, 0).prev == t
      ensures forall i :: 1 <= i < |ring| ==> NextAt(ring, i)
      ensures |ring| > 1 ==> forall i :: 0 <= i < |ring| && i != 1 ==> PrevAt(ring, i)
      ensures forall n <- ring :: Info(n) == old(Info(n))
      ensures Info(t) == old(Info(t)) && t.state == old(t.state)
    {
      forall i | 0 <= i < |ring| ensures LinkAt(ring, i) && ring[i] != t && (i > 0 ==> ring[i] != ring[0]) && (i > 1 ==> ring[i] != ring[1]) {
        assert ring[i] in ring;
      }
      t.next := current.next;
      t.prev := current;
      current.next.prev := t;
      current.next := t;
      forall i | 1 <= i < |ring| ensures NextAt(ring, i) { assert old(LinkAt(ring, i)); }
      forall i | 0 <= i < |ring| && i != 1 && |ring| > 1 ensures PrevAt(ring, i) { assert old(LinkAt(ring, i)); }
    }

    /** A new record linked in behind the running task's. */
    method LinkIn(t: Node)
      requires Shape() && t !in ring && t.parent == current
      modifies ring, t, `ring, `taskCount
      ensures Shape() && current.next == t && t.state == old(t.state) && forall m :: m in ring ==> m in old(ring) || m == t
      ensures View(ring) == Inserted(old(View(ring)), old(Info(t)))
    {
      hide LinkAt, NextAt, PrevAt, Linked, NoTwice, ParentsIn, View, In, Info, Inserted;
      SetLinks(t);
      assert View(ring) == old(View(ring)) by { forall i | 0 <= i < |ring| ensures Info(ring[i]) == old(Info(ring[i])) { assert ring[i] in ring; } }
      InLinked(ring, t);
      InMembers(ring, t);
      NewMembers(ring, t);
      InView(ring, t);
      taskCount := taskCount + 1;
      ring := In(ring, t);
    }

    /** task_alloc_common, as task_create and its variants use it: a READY task behind the running one. */
    method Create() returns (t: Node)
      requires Valid() && Allowed(Now(), Tasks.Create)
      modifies this, ring
      ensures Valid() && Now() == Next(old(Now()), Tasks.Create)
      ensures fresh(t) && forall m :: m in ring ==> m in old(ring) || m == t
      ensures t.id == old(nextId) && t.state == Ready && t.parent == old(current) == current && current.next == t
    {
      hide Sound, Allowed, Linked, NoTwice, ParentsIn, Inserted, View, In, Next, LinkAt;
      CreateSound(Now());
      ghost var s := Now();
      CreateIs(s);
      t := new Node(nextId, current);
      nextId := nextId + 1;
      parents := parents[t.id := current.id];
      ghost var info := Info(t);
      assert info == Task(s.nextId, Ready, Some(s.ring[0].id), 0, No);
      hide Info;
      LinkIn(t);
      assert Now() == Next(s, Tasks.Create);
    }

    /** The two links that take a record out, and the count. */
    method Unlink(child: Node, ghost j: nat)
      requires Shape() && 0 < j < |ring| && ring[j] == child && forall n <- ring :: n.parent != child
      modifies ring, `ring, `taskCount
      ensures Shape() && ring == Out(old(ring), j)
      ensures View(ring) == Without(old(View(ring)), j)
    {
      hide LinkAt, NextAt, PrevAt, Linked, NoTwice, ParentsIn, View, Out, Info;
      ClearLinks(child, j);
      assert View(ring) == old(View(ring)) by { forall i | 0 <= i < |ring| ensures Info(ring[i]) == old(Info(ring[i])) { assert ring[i] in ring; } }
      OutLinked(ring, j);
      OutView(ring, j);
      taskCount := taskCount - 1;
      ring := Out(ring, j);
    }

    method ClearLinks(child: Node, ghost j: nat)
      requires Shape() && 0 < j < |ring| && ring[j] == child
      modifies ring
      ensures ring[j - 1].next == Behind(ring, j) && Behind(ring, j).prev == ring[j - 1]
      ensures forall i :: 0 <= i < |ring| && i != j - 1 ==> NextAt(ring, i)
      ensures forall i :: 0 <= i < |ring| && i != Wrap(ring, j + 1) ==> PrevAt(ring, i)
      ensures forall n <- ring :: Info(n) == old(Info(n))
    {
      forall i | 0 <= i < |ring|
        ensures LinkAt(ring, i) && (i != j - 1 ==> ring[i] != ring[j - 1]) && (i != Wrap(ring, j + 1) ==> ring[i] != Behind(ring, j))
      {
      }
      child.prev.next := child.next;
      child.next.prev := child.prev;
      forall i | 0 <= i < |ring| && i != j - 1 ensures NextAt(ring, i) { assert old(LinkAt(ring, i)); }
      forall i | 0 <= i < |ring| && i != Wrap(ring, j + 1) ensures PrevAt(ring, i) { assert old(LinkAt(ring, i)); }
    }

    /** The unlinking in task_wait_specific, of a zombie that is nobody's parent. */
    method Reap(child: Node, ghost j: nat) returns (code: int)
      requires Valid() && 0 < j < |ring| && ring[j] == child && child.state == Zombie && child.parent == current
      requires current.state != Zombie && Childless(View(ring), child.id)
      modifies this, ring
      ensures Valid() && Now() == Tasks.Reap(old(Now()), j) && code == old(child.exitCode)
      ensures forall m :: m in ring ==> m in old(ring)
    {
      ghost var s := Now();
      ReapSound(s, j);
      ReapIs(s, j);
      NobodysParent(ring, child);
      hide Sound, Linked, NoTwice, ParentsIn, Without, Childless, View, Out, Tasks.Reap;
      code := child.exitCode;
      ghost var pid := child.id;
      Detach(child, j);
      reaped := reaped + [Reaping(current.id, pid, code)];
      assert Now() == Tasks.Reap(s, j);
    }

    /** The running task out of its wait call, and the child's record out of the ring. */
    method Detach(child: Node, ghost j: nat)
      requires Shape() && 0 < j < |ring| && ring[j] == child && forall n <- ring :: n.parent != child
      modifies ring, `ring, `taskCount
      ensures Shape() && current == old(current) && forall m :: m in ring ==> m in old(ring)
      ensures View(ring) == Without(old(View(ring))[0 := old(View(ring))[0].(waiting := No)], j)
    {
      hide Linked, NoTwice, ParentsIn, Without, View, Out;
      Put(current, current.state, current.exitCode, No, 0);
      OutMembers(ring, j);
      Unlink(child, j);
    }

    /** The scan of task_wait_any, from the running task's successor around the ring. */
    method Scan() returns (found: Node?, any: bool, ghost j: nat)
      requires Shape() && Distinct(View(ring))
      ensures j == ZombieChild(View(ring), current.id, 1) && (found == null <==> j == |ring|) && (j < |ring| ==> found == ring[j])
      ensures found == null ==> (any <==> HasChild(View(ring), current.id))
    {
      hide ZombieChild, View;
      forall i | 0 <= i < |ring| ensures ring[i].parent == current <==> IsChild(View(ring)[i], current.id) { ChildIs(ring, i); }
      hide Distinct, ParentsIn;
      assert LinkAt(ring, 0);
      var t := current.next;
      found, any, j := null, false, 1;
      while t != current
        invariant 1 <= j <= |ring| && t == (if j < |ring| then ring[j] else ring[0])
        invariant ZombieChild(View(ring), current.id, j) == ZombieChild(View(ring), current.id, 1)
        invariant any <==> exists k :: 0 < k < j && IsChild(View(ring)[k], current.id)
        decreases |ring| - j
      {
        assert LinkAt(ring, j);
        ZombieNext(View(ring), current.id, j);
        if t.parent == current {
          any := true;
          if t.state == Zombie {
            found := t;
            return;
          }
        }
        t, j := t.next, j + 1;
      }
      ZombieNext(View(ring), current.id, j);
    }

    /** Once around the loop of task_wait_any: a zombie child reaped, or -1 without children, or asleep. */
    method WaitAny() returns (done: bool, pid: int, code: int)
      requires Valid() && Allowed(Now(), Tasks.WaitAny)
      modifies this, ring
      ensures Valid() && Now() == Next(old(Now()), Tasks.WaitAny)
      ensures forall m :: m in ring ==> m in old(ring) || fresh(m)
      ensures done <==> pid >= 0 || !HasChild(old(View(ring)), old(current.id))
      ensures done && pid >= 0 ==> reaped == old(reaped) + [Reaping(old(current.id), pid, code)]
      ensures pid < 0 ==> pid == -1 && reaped == old(reaped)
    {
      ghost var s := Now();
      NextSound(s, Tasks.WaitAny);
      SoundDistinct(s);
      hide Sound, Linked, NoTwice, ParentsIn, View, Distinct, Childless, Without;
      var found, any;
      ghost var j;
      found, any, j := Scan();
      code := 0;
      if found != null {
        pid := found.id;
        FoundChild(ring, j);
        code := Reap(found, j);
        done := true;
        assert Now() == Next(s, Tasks.WaitAny);
      } else if !any {
        Put(current, current.state, current.exitCode, No, 0);
        done, pid := true, -1;
        assert Now() == Next(s, Tasks.WaitAny);
      } else {
        Block(ForAny);
        done, pid := false, -1;
        assert Now() == Next(s, Tasks.WaitAny);
      }
    }

    /** Once around the loop of task_wait_specific: the child reaped, or asleep. */
    method WaitFor(child: Node) returns (done: bool, code: int)
      requires Valid() && child in ring && child.parent == current && child != current && Allowed(Now(), Tasks.WaitFor(child.id))
      modifies this, ring
      ensures Valid() && Now() == Next(old(Now()), Tasks.WaitFor(child.id))
      ensures forall m :: m in ring ==> m in old(ring) || fresh(m)
      ensures done <==> old(child.state) == Zombie
      ensures done ==> code == old(child.exitCode) && reaped == old(reaped) + [Reaping(old(current.id), child.id, code)]
    {
      ghost var s := Now();
      hide Sound, Linked, NoTwice, ParentsIn, View, Distinct, Childless, Without, Allowed, CanSleep, Next, Tasks.Reap, BlockedNow;
      ghost var j :| 0 <= j < |ring| && ring[j] == child;
      CanWaitFor(s, j);
      if child.state == Zombie {
        code := Reap(child, j);
        done := true;
      } else {
        Block(For(child.id));
        done, code := false, 0;
      }
      assert Now() == Next(s, Tasks.WaitFor(child.id));
    }

    // -------------------------------------------------------------- whole runs

    /** The record of the task with an id, looked for around the ring. */
    method NodeOf(id: nat) returns (found: Node?, ghost j: nat)
      requires Shape()
      ensures j == Find(View(ring), id, 0) && (found == null <==> j == |ring|) && (j < |ring| ==> found == ring[j])
    {
      hide View, Find;
      var t := current;
      j := 0;
      while true
        invariant j < |ring| && t == ring[j] && Find(View(ring), id, j) == Find(View(ring), id, 0)
        decreases |ring| - j
      {
        assert LinkAt(ring, j);
        FindNextAt(View(ring), id, j);
        if t.id == id { return t, j; }
        t, j := t.next, j + 1;
        if t == current {
          NoTwiceAround(ring, j);
          FindNextAt(View(ring), id, j);
          return null, j;
        }
      }
    }

    /** task_unblock of whichever task has the id. */
    method WakeId(id: nat)
      requires Valid()
      modifies this, ring
      ensures Valid() && Now() == Next(old(Now()), Tasks.Wake(id)) && ring == old(ring)
    {
      ghost var s := Now();
      NextSound(s, Tasks.Wake(id));
      SoundDistinct(s);
      hide Sound, Linked, NoTwice, ParentsIn, View, Distinct, Find, Shape;
      assert Shape();
      var t;
      ghost var j;
      t, j := NodeOf(id);
      if t != null { Unblock(t); }
      assert Now() == Next(s, Tasks.Wake(id));
    }

    /** One event, as the kernel's calls carry it out. */
    method Step(e: Event)
      requires Valid() && Allowed(Now(), e)
      modifies this, ring
      ensures Valid() && Now() == Next(old(Now()), e)
      ensures forall m :: m in ring ==> m in old(ring) || fresh(m)
    {
      hide Sound, Linked, NoTwice, ParentsIn, View, Distinct, Find;
      match e
      case Yield => Schedule();
      case Create => var t := Create();
      case Block => Block(No);
      case Wake(id) => WakeId(id);
      case Exit(code) => ExitCurrent(code);
      case Terminate(id, code) => TerminateId(id, code);
      case WaitAny => var done, pid, code := WaitAny();
      case WaitFor(pid) => var done, code := WaitForId(pid);
    }

    /** task_force_terminate of whichever other task has the id. */
    method TerminateId(id: nat, code: int)
      requires Valid() && Allowed(Now(), Tasks.Terminate(id, code))
      modifies this, ring
      ensures Valid() && Now() == Next(old(Now()), Tasks.Terminate(id, code))
      ensures forall m :: m in ring ==> m in old(ring) || fresh(m)
    {
      ghost var s := Now();
      SoundDistinct(s);
      var t;
      ghost var j;
      t, j := NodeOf(id);
      OtherTask(s.ring, id);
      hide Sound, Linked, NoTwice, ParentsIn, Distinct, Find, Next;
      if t == null || t == current { return; }
      ForceTerminate(t, code);
    }

    /** task_wait_specific of the child with an id. */
    method WaitForId(pid: nat) returns (done: bool, code: int)
      requires Valid() && Allowed(Now(), Tasks.WaitFor(pid))
      modifies this, ring
      ensures Valid() && Now() == Next(old(Now()), Tasks.WaitFor(pid))
      ensures forall m :: m in ring ==> m in old(ring) || fresh(m)
      ensures reaped == if done then old(reaped) + [Reaping(old(current.id), pid, code)] else old(reaped)
    {
      ghost var s := Now();
      SoundDistinct(s);
      var t;
      ghost var j;
      t, j := NodeOf(pid);
      WaitedFor(s, pid);
      FoundChild(ring, j);
      hide Sound, Linked, NoTwice, ParentsIn, Distinct, Find, Next, Allowed;
      done, code := WaitFor(t);
    }

    /** Any run of events that can happen, carried out on the linked records, is the run of the Tasks system. */
    method Run(es: seq<Event>)
      requires Valid() && AllAllowed(Now(), es)
      modifies this, ring
      ensures Valid() && Now() == After(old(Now()), es)
    {
      hide Sound, Linked, NoTwice, ParentsIn, View, Allowed, Next;
      for i := 0 to |es|
        invariant Valid() && AllAllowed(Now(), es[i..]) && After(Now(), es[i..]) == After(old(Now()), es)
        invariant forall m :: m in ring ==> m in old(ring) || fresh(m)
      {
        assert es[i..][1..] == es[i + 1..];
        forall k | 0 <= k < |ring| ensures fresh(ring[k]) || exists j :: 0 <= j < old(|ring|) && ring[k] == old(ring)[j] {
          assert ring[k] in ring;
        }
        Step(es[i]);
      }
    }
  }

  /** From boot on, the linked records stay what Tasks.ExitAndWait says of every run. */
  method BootAndRun(es: seq<Event>) returns (tasks: TaskList)
    requires AllAllowed(Booted(), es)
    ensures fresh(tasks) && tasks.Valid() && tasks.Now() == After(Booted(), es)
    ensures forall r <- tasks.reaped :: Story(es, r)
  {
    Stories(es);
    hide Story;
    tasks := new TaskList();
    tasks.Run(es);
  }

  lemma FindNextAt(v: seq<Task>, id: nat, j: nat)
    requires j <= |v|
    ensures Find(v, id, j) == if j == |v| || v[j].id == id then j else Find(v, id, j + 1)
  {
  }

  /** The walk is back at the running task only after all the others. */
  lemma NoTwiceAround(ring: seq<Node>, j: nat)
    requires NoTwice(ring) && 0 < j <= |ring| && ring[0] == (if j < |ring| then ring[j] else ring[0])
    ensures j == |ring|
  {
  }

  lemma OtherTask(v: seq<Task>, id: nat)
    requires Distinct(v) && v != []
    ensures Find(v, id, 0) > 0 ==> Find(v, id, 1) == Find(v, id, 0)
    ensures Find(v, id, 0) == 0 ==> Find(v, id, 1) == |v|
  {
  }

  lemma WaitedFor(s: System, pid: nat)
    requires Sound(s) && Allowed(s, Tasks.WaitFor(pid))
    ensures 0 < Find(s.ring, pid, 0) < |s.ring| && IsChild(s.ring[Find(s.ring, pid, 0)], s.ring[0].id)
    ensures s.ring[Find(s.ring, pid, 0)].id != s.ring[0].id
  {
    var t :| t in s.ring && t.id == pid && IsChild(t, s.ring[0].id);
    var i :| 0 <= i < |s.ring| && s.ring[i] == t;
    AtIndex(s.ring, i);
    assert TaskSound(s, pid);
  }

  lemma CanWaitFor(s: System, j: nat)
    requires Sound(s) && 0 < j < |s.ring| && IsChild(s.ring[j], s.ring[0].id) && Allowed(s, Tasks.WaitFor(s.ring[j].id))
    ensures s.ring[0].state != Zombie
    ensures s.ring[j].state != Zombie ==> CanSleep(s, For(s.ring[j].id))
    ensures s.ring[j].state == Zombie ==> Childless(s.ring, s.ring[j].id)
    ensures Next(s, Tasks.WaitFor(s.ring[j].id)) == if s.ring[j].state == Zombie then Tasks.Reap(s, j) else BlockedNow(s, For(s.ring[j].id))
    ensures s.ring[j].state == Zombie ==> Tasks.Reap(s, j).reaped == s.reaped + [Reaping(s.ring[0].id, s.ring[j].id, s.ring[j].exitCode)]
  {
    AtIndex(s.ring, j);
    FindFrom(s.ring, j);
    assert s.ring[j] in s.ring;
    hide Childless;
  }

  lemma FoundChild(ring: seq<Node>, j: nat)
    requires NoTwice(ring) && ParentsIn(ring) && Distinct(View(ring)) && 0 < j < |ring| && IsChild(View(ring)[j], ring[0].id)
    ensures ring[j].parent == ring[0]
  {
    ChildIs(ring, j);
  }

  lemma ChildIs(ring: seq<Node>, i: nat)
    requires ring != [] && ParentsIn(ring) && Distinct(View(ring)) && i < |ring|
    ensures ring[i].parent == ring[0] <==> IsChild(View(ring)[i], ring[0].id)
  {
    var n := ring[i];
    assert n in ring;
    if n.parent != null && n.parent.id == ring[0].id {
      var p :| 0 <= p < |ring| && ring[p] == n.parent;
      assert View(ring)[p].id == View(ring)[0].id;
    }
  }

  lemma ZombieNext(v: seq<Task>, id: nat, j: nat)
    requires j <= |v|
    ensures ZombieChild(v, id, j) == if j == |v| || (IsChild(v[j], id) && v[j].state == Zombie) then j else ZombieChild(v, id, j + 1)
  {
  }

  lemma CreateIs(s: System)
    requires s.ring != []
    ensures Next(s, Tasks.Create) ==
      System(Inserted(s.ring, Task(s.nextId, Ready, Some(s.ring[0].id), 0, No)), s.nextId + 1, s.exits, s.parents[s.nextId := s.ring[0].id], s.reaped)
  {
  }

  lemma NotOwnParent(s: System, j: nat)
    requires Sound(s) && j < |s.ring|
    ensures s.ring[j].parent != Some(s.ring[j].id)
  {
    AtIndex(s.ring, j);
    assert TaskSound(s, s.ring[j].id);
  }

  lemma TerminateIs(s: System, j: nat, code: int)
    requires Distinct(s.ring) && 0 < j < |s.ring|
    ensures Next(s, Terminate(s.ring[j].id, code)) == Ended(s, j, code)
  {
    FindFrom(s.ring, j);
  }

  lemma ReapIs(s: System, j: nat)
    requires 0 < j < |s.ring|
    ensures Tasks.Reap(s, j) == s.(
      ring := Without(s.ring[0 := s.ring[0].(waiting := No)], j),
      reaped := s.reaped + [Reaping(s.ring[0].id, s.ring[j].id, s.ring[j].exitCode)])
  {
  }

  lemma NobodysParent(ring: seq<Node>, child: Node)
    requires Childless(View(ring), child.id)
    ensures forall n <- ring :: n.parent != child
  {
    forall n <- ring ensures n.parent != child {
      var i :| 0 <= i < |ring| && ring[i] == n;
      assert View(ring)[i] in View(ring);
    }
  }

  function Wrap(ring: seq<Node>, i: nat): nat { if i < |ring| then i else 0 }

  function Out(ring: seq<Node>, j: nat): (r: seq<Node>)
    requires j < |ring|
    ensures |r| == |ring| - 1 && forall i :: 0 <= i < |r| ==> r[i] == ring[if i < j then i else i + 1]
  {
    ring[..j] + ring[j + 1..]
  }

  lemma OutMembers(ring: seq<Node>, j: nat)
    requires j < |ring|
    ensures forall m :: m in Out(ring, j) ==> m in ring
  {
  }

  lemma OutView(ring: seq<Node>, j: nat)
    requires 0 < j < |ring| && NoTwice(ring) && ParentsIn(ring) && forall n <- ring :: n.parent != ring[j]
    ensures View(Out(ring, j)) == Without(View(ring), j) && NoTwice(Out(ring, j)) && ParentsIn(Out(ring, j))
    ensures Out(ring, j)[0] == ring[0]
  {
    assert ring == ring[..j] + [ring[j]] + ring[j + 1..];
    assert forall m :: m in ring <==> m in Out(ring, j) || m == ring[j];
    assert ParentsIn(Out(ring, j));
    hide ParentsIn, Out;
    assert NoTwice(Out(ring, j));
    hide NoTwice, View;
    assert View(Out(ring, j)) == Without(View(ring), j);
  }

  lemma OutLinked(ring: seq<Node>, j: nat)
    requires 0 < j < |ring| && ring[j - 1].next == Behind(ring, j) && Behind(ring, j).prev == ring[j - 1]
    requires forall i :: 0 <= i < |ring| && i != j - 1 ==> NextAt(ring, i)
    requires forall i :: 0 <= i < |ring| && i != Wrap(ring, j + 1) ==> PrevAt(ring, i)
    ensures Linked(Out(ring, j))
  {
    var r := Out(ring, j);
    hide Out;
    forall i | 0 <= i < |r| ensures LinkAt(r, i) {
      var k := if i < j then i else i + 1;
      if k != j - 1 { assert NextAt(ring, k); }
      if k != Wrap(ring, j + 1) { assert PrevAt(ring, k); }
    }
  }

  function In(ring: seq<Node>, t: Node): (r: seq<Node>)
    requires ring != []
    ensures |r| == |ring| + 1 && r[0] == ring[0] && r[1] == t && forall i :: 2 <= i <= |ring| ==> r[i] == ring[i - 1]
  {
    [ring[0], t] + ring[1..]
  }

  lemma InMembers(ring: seq<Node>, t: Node)
    requires ring != [] && NoTwice(ring) && ParentsIn(ring) && t !in ring && (t.parent == null || t.parent in ring)
    ensures NoTwice(In(ring, t)) && ParentsIn(In(ring, t))
  {
    assert ring == [ring[0]] + ring[1..];
    assert forall m :: m in In(ring, t) <==> m in ring || m == t;
    assert ParentsIn(In(ring, t));
    hide ParentsIn;
    forall i, j | 0 <= i < j <= |ring| ensures In(ring, t)[i] != In(ring, t)[j] {
      assert ring[0] in ring && (i >= 2 ==> ring[i - 1] in ring) && (j >= 2 ==> ring[j - 1] in ring);
    }
  }

  lemma NewMembers(ring: seq<Node>, t: Node)
    requires ring != []
    ensures forall m :: m in In(ring, t) ==> m in ring || m == t
  {
  }

  lemma InView(ring: seq<Node>, t: Node)
    requires ring != []
    ensures View(In(ring, t)) == Inserted(View(ring), Info(t))
  {
    hide View, In, Info;
    var v, w := View(In(ring, t)), Inserted(View(ring), Info(t));
    forall i | 0 <= i <= |ring| ensures v[i] == w[i] {
      if i >= 2 { assert w[i] == View(ring)[i - 1]; }
    }
  }

  /** The four links set, and the others as they were, make the larger circle. */
  lemma InLinked(ring: seq<Node>, t: Node)
    requires ring != [] && t.next == Behind(ring, 0) && t.prev == ring[0] && ring[0].next == t && Behind(ring, 0).prev == t
    requires forall i :: 1 <= i < |ring| ==> NextAt(ring, i)
    requires |ring| > 1 ==> forall i :: 0 <= i < |ring| && i != 1 ==> PrevAt(ring, i)
    ensures Linked(In(ring, t))
  {
    var r := In(ring, t);
    forall i | 0 <= i < |r| ensures LinkAt(r, i) {
      if i >= 2 { assert NextAt(ring, i - 1); }
      if i >= 3 { assert PrevAt(ring, i - 1); }
      if i == 0 && |ring| > 1 { assert PrevAt(ring, 0); }
    }
  }

  lemma SoundDistinct(s: System)
    requires Sound(s)
    ensures Distinct(s.ring)
  {
  }

  lemma DistinctUpdate(s: System, j: nat, code: int)
    requires Sound(s) && j < |s.ring|
    ensures Distinct(s.ring[j := s.ring[j].(state := Zombie, exitCode := code)])
  {
    AtUpdated(s.ring, j, s.ring[j].(state := Zombie, exitCode := code), 0);
  }

  lemma FindFrom(v: seq<Task>, j: nat)
    requires Distinct(v) && 0 < j < |v|
    ensures Find(v, v[j].id, 1) == j
  {
  }

  lemma NotReady(v: seq<Task>, i: nat)
    requires i < |v| && v[i].state != Ready
    ensures NextReady(v, i) == NextReady(v, i + 1)
  {
  }

  lemma ReadyAt(v: seq<Task>, i: nat)
    requires i <= |v| && (i < |v| ==> v[i].state == Ready)
    ensures NextReady(v, i) == i
  {
  }
}
