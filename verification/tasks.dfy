/** The task ring and the exit and wait protocol of kernel/task.c as a transition system. The running task
    is the first of the ring; every step is one interrupts-off section. */
module Tasks {
  import opened Options

  datatype State = Ready | Blocked | Zombie

  /** What a task is waiting for inside a wait call. */
  datatype Waiting = No | ForAny | For(pid: nat)

  datatype Task = Task(id: nat, state: State, parent: Option<nat>, exitCode: int, waiting: Waiting)

  /** A task reaped: by whom, which, and the code returned. */
  datatype Reaping = Reaping(parent: nat, pid: nat, code: int)

  /** The ring from the running task on, and what has happened so far: the codes tasks exited with, who
      created whom, and who was reaped. */
  datatype System = System(ring: seq<Task>, nextId: nat, exits: map<nat, int>, parents: map<nat, nat>, reaped: seq<Reaping>)

  // ---------------------------------------------------------------- the ring

  /** The first READY task from position i on, or the length of the ring. */
  function NextReady(ring: seq<Task>, i: nat): (k: nat)
    requires i <= |ring|
    ensures i <= k <= |ring| && (k < |ring| ==> ring[k].state == Ready)
    ensures forall j :: i <= j < k ==> ring[j].state != Ready
    decreases |ring| - i
  {
    if i == |ring| || ring[i].state == Ready then i else NextReady(ring, i + 1)
  }

  /** schedule: the next READY task after the running one runs; if there is none, nothing changes. */
  function Switched(ring: seq<Task>): (r: seq<Task>)
    requires ring != []
    ensures |r| == |ring|
  {
    var k := NextReady(ring, 1);
    if k == |ring| then ring else ring[k..] + ring[..k]
  }

  /** A new task goes in behind the running one. */
  function Inserted(ring: seq<Task>, t: Task): seq<Task>
    requires ring != []
  {
    [ring[0], t] + ring[1..]
  }

  function Without(ring: seq<Task>, j: nat): seq<Task>
    requires j < |ring|
  {
    ring[..j] + ring[j + 1..]
  }

  /** Where the task with an id is. */
  function Find(ring: seq<Task>, id: nat, i: nat): (k: nat)
    requires i <= |ring|
    ensures i <= k <= |ring| && (k < |ring| ==> ring[k].id == id)
    ensures forall j :: i <= j < k ==> ring[j].id != id
    decreases |ring| - i
  {
    if i == |ring| || ring[i].id == id then i else Find(ring, id, i + 1)
  }

  function Woken(t: Task): Task { if t.state == Blocked then t.(state := Ready) else t }

  /** task_unblock of the task with an id, if it is there. */
  function Unblocked(ring: seq<Task>, id: nat): (r: seq<Task>)
    ensures |r| == |ring|
  {
    var k := Find(ring, id, 0);
    if k == |ring| then ring else ring[k := Woken(ring[k])]
  }

  function UnblockedParent(ring: seq<Task>, t: Task): (r: seq<Task>)
    ensures |r| == |ring|
  {
    match t.parent case None => ring case Some(p) => Unblocked(ring, p)
  }

  // ---------------------------------------------------------------- waiting

  predicate IsChild(t: Task, id: nat) { t.parent == Some(id) }

  /** The first zombie child of a task from position i on, or the length of the ring. */
  function ZombieChild(ring: seq<Task>, id: nat, i: nat): (k: nat)
    requires i <= |ring|
    ensures i <= k <= |ring| && (k < |ring| ==> IsChild(ring[k], id) && ring[k].state == Zombie)
    ensures forall j :: i <= j < k ==> !(IsChild(ring[j], id) && ring[j].state == Zombie)
    decreases |ring| - i
  {
    if i == |ring| || (IsChild(ring[i], id) && ring[i].state == Zombie) then i else ZombieChild(ring, id, i + 1)
  }

  predicate HasChild(ring: seq<Task>, id: nat) { exists j :: 0 < j < |ring| && IsChild(ring[j], id) }

  // ---------------------------------------------------------------- steps

  datatype Event =
    | Yield
    | Create
    | Block
    | Wake(id: nat)
    | Exit(code: int)
    | Terminate(id: nat, code: int)
    | WaitAny
    | WaitFor(pid: nat)

  /** task_block: the running task is BLOCKED and another takes over. */
  function BlockedNow(s: System, waiting: Waiting): System
    requires s.ring != []
  {
    s.(ring := Switched(s.ring[0 := s.ring[0].(state := Blocked, waiting := waiting)]))
  }

  /** The zombie at position j unlinked, its code returned to the running task. */
  function Reap(s: System, j: nat): System
    requires 0 < j < |s.ring|
  {
    var self, dead := s.ring[0].(waiting := No), s.ring[j];
    s.(ring := Without(s.ring[0 := self], j), reaped := s.reaped + [Reaping(self.id, dead.id, dead.exitCode)])
  }

  /** A task becomes a zombie with a code, and its parent is woken. */
  function Ended(s: System, j: nat, code: int): (s': System)
    requires j < |s.ring|
    ensures |s'.ring| == |s.ring|
  {
    var t := s.ring[j].(state := Zombie, exitCode := code);
    s.(ring := UnblockedParent(s.ring[j := t], t), exits := s.exits[t.id := code])
  }

  function Next(s: System, e: Event): (s': System)
    requires s.ring != []
    ensures s'.ring != []
  {
    var self := s.ring[0];
    match e
    case Yield => s.(ring := Switched(s.ring))
    case Create =>
      System(Inserted(s.ring, Task(s.nextId, Ready, Some(self.id), 0, No)), s.nextId + 1, s.exits, s.parents[s.nextId := self.id], s.reaped)
    case Block => BlockedNow(s, No)
    case Wake(id) => s.(ring := Unblocked(s.ring, id))
    case Exit(code) =>
      var ended := Ended(s, 0, code);
      if |s.ring| <= 1 then ended else ended.(ring := Switched(ended.ring))
    case Terminate(id, code) =>
      var j := Find(s.ring, id, 1);
      if j == |s.ring| then s else Ended(s, j, code)
    case WaitAny =>
      var j := ZombieChild(s.ring, self.id, 1);
      if j < |s.ring| then Reap(s, j)
      else if HasChild(s.ring, self.id) then BlockedNow(s, ForAny)
      else s.(ring := s.ring[0 := self.(waiting := No)])
    case WaitFor(pid) =>
      var j := Find(s.ring, pid, 1);
      if j == |s.ring| then s
      else if s.ring[j].state == Zombie then Reap(s, j)
      else BlockedNow(s, For(pid))
  }

  /** Whether nobody in the ring has the task as its parent. */
  predicate Childless(ring: seq<Task>, id: nat) { forall t <- ring :: !IsChild(t, id) }

  /** What can happen: a zombie only gets preempted, a task inside a wait call only scans again, only a
      child is waited for, only a task still alive is terminated, and none is reaped before its children. */
  predicate Allowed(s: System, e: Event)
    requires s.ring != []
  {
    var self := s.ring[0];
    match e
    case Yield => true
    case Wake(id) => true
    case Create => self.state != Zombie && self.waiting == No
    case Block => self.state != Zombie && self.waiting == No
    case Exit(_) => self.state != Zombie && self.waiting == No
    case Terminate(id, _) =>
      && self.state != Zombie && self.waiting == No
      && forall t <- s.ring :: t.id == id ==> t.state != Zombie
    case WaitAny =>
      var j := ZombieChild(s.ring, self.id, 1);
      && self.state != Zombie && (self.waiting == No || self.waiting == ForAny)
      && (j < |s.ring| ==> Childless(s.ring, s.ring[j].id))
    case WaitFor(pid) =>
      && self.state != Zombie && (self.waiting == No || self.waiting == For(pid))
      && (exists t <- s.ring :: t.id == pid && IsChild(t, self.id))
      && (forall t <- s.ring :: t.id == pid && t.state == Zombie ==> Childless(s.ring, pid))
  }

  // ---------------------------------------------------------------- looking tasks up

  ghost predicate Distinct(ring: seq<Task>) { forall i, j :: 0 <= i < j < |ring| ==> ring[i].id != ring[j].id }

  /** The task with an id. */
  function At(ring: seq<Task>, id: nat): Option<Task> {
    var k := Find(ring, id, 0);
    if k < |ring| then Some(ring[k]) else None
  }

  lemma AtIndex(ring: seq<Task>, k: nat)
    requires Distinct(ring) && k < |ring|
    ensures Find(ring, ring[k].id, 0) == k && At(ring, ring[k].id) == Some(ring[k])
  {
  }

  lemma AtNone(ring: seq<Task>, id: nat)
    requires forall t <- ring :: t.id != id
    ensures At(ring, id) == None
  {
  }

  /** Rotating the ring loses nobody. */
  lemma AtRotated(ring: seq<Task>, k: nat, id: nat)
    requires Distinct(ring) && k <= |ring|
    ensures Distinct(ring[k..] + ring[..k]) && At(ring[k..] + ring[..k], id) == At(ring, id)
  {
    var r := ring[k..] + ring[..k];
    var i := Find(ring, id, 0);
    forall a, b | 0 <= a < b < |r| ensures r[a].id != r[b].id {
      assert r[a] == (if a < |ring| - k then ring[a + k] else ring[a - (|ring| - k)]);
      assert r[b] == (if b < |ring| - k then ring[b + k] else ring[b - (|ring| - k)]);
    }
    if i < |ring| {
      var i' := if i < k then i + (|ring| - k) else i - k;
      assert r[i'] == ring[i];
      AtIndex(r, i');
    } else {
      forall t <- r ensures t.id != id {}
      AtNone(r, id);
    }
  }

  lemma AtSwitched(ring: seq<Task>, id: nat)
    requires Distinct(ring) && ring != []
    ensures Switched(ring) != [] && Distinct(Switched(ring)) && At(Switched(ring), id) == At(ring, id)
  {
    AtRotated(ring, NextReady(ring, 1), id);
  }

  lemma AtUpdated(ring: seq<Task>, k: nat, t: Task, id: nat)
    requires Distinct(ring) && k < |ring| && t.id == ring[k].id
    ensures Distinct(ring[k := t]) && At(ring[k := t], id) == if id == t.id then Some(t) else At(ring, id)
  {
    var r := ring[k := t];
    if id == t.id { AtIndex(r, k); }
    else {
      var i := Find(ring, id, 0);
      if i < |ring| { assert r[i] == ring[i]; AtIndex(r, i); } else { forall u <- r ensures u.id != id {} AtNone(r, id); }
    }
  }

  lemma AtInserted(ring: seq<Task>, t: Task, id: nat)
    requires Distinct(ring) && ring != [] && forall u <- ring :: u.id != t.id
    ensures Distinct(Inserted(ring, t)) && At(Inserted(ring, t), id) == if id == t.id then Some(t) else At(ring, id)
  {
    var r := Inserted(ring, t);
    forall a, b | 0 <= a < b < |r| ensures r[a].id != r[b].id {
      assert a > 1 ==> r[a] == ring[a - 1];
      assert b > 1 ==> r[b] == ring[b - 1];
    }
    if id == t.id { AtIndex(r, 1); }
    else {
      var i := Find(ring, id, 0);
      if i < |ring| { var i' := if i == 0 then 0 else i + 1; assert r[i'] == ring[i]; AtIndex(r, i'); }
      else { forall u <- r ensures u.id != id {} AtNone(r, id); }
    }
  }

  lemma AtWithout(ring: seq<Task>, j: nat, id: nat)
    requires Distinct(ring) && j < |ring|
    ensures Distinct(Without(ring, j)) && At(Without(ring, j), id) == if id == ring[j].id then None else At(ring, id)
  {
    var r := Without(ring, j);
    var i := Find(ring, id, 0);
    if id == ring[j].id || i == |ring| {
      forall u <- r ensures u.id != id {}
      AtNone(r, id);
    } else {
      var i' := if i < j then i else i - 1;
      assert r[i'] == ring[i];
      AtIndex(r, i');
    }
  }

  lemma AtUnblocked(ring: seq<Task>, w: nat, id: nat)
    requires Distinct(ring)
    ensures |Unblocked(ring, w)| == |ring| && Distinct(Unblocked(ring, w))
    ensures At(Unblocked(ring, w), id) == if id == w && At(ring, id).Some? then Some(Woken(At(ring, id).value)) else At(ring, id)
  {
    var k := Find(ring, w, 0);
    if k < |ring| { AtUpdated(ring, k, Woken(ring[k]), id); }
  }

  // ---------------------------------------------------------------- what every step keeps

  predicate ChildAt(ring: seq<Task>, c: nat, id: nat) { At(ring, c).Some? && IsChild(At(ring, c).value, id) }

  /** A task inside a wait call and blocked has what it waits for still ahead of it. */
  ghost predicate WaitSound(ring: seq<Task>, id: nat, t: Task) {
    match t.waiting
    case No => true
    case ForAny =>
      && (exists c :: ChildAt(ring, c, id))
      && (t.state == Blocked ==> forall c :: ChildAt(ring, c, id) ==> At(ring, c).value.state != Zombie)
    case For(pid) => ChildAt(ring, pid, id) && (t.state == Blocked ==> At(ring, pid).value.state != Zombie)
  }

  ghost predicate TaskSound(s: System, id: nat) {
    match At(s.ring, id)
    case None => true
    case Some(t) =>
      && t.id == id < s.nextId
      && (match t.parent case None => true case Some(p) => At(s.ring, p).Some? && p != id && id in s.parents && s.parents[id] == p)
      && (if t.state == Zombie then id in s.exits && s.exits[id] == t.exitCode else id !in s.exits)
      && WaitSound(s.ring, id, t)
  }

  /** Every task reaped was reaped once, by the task that created it, which got the code it exited with. */
  ghost predicate ReapedSound(s: System) {
    && (forall i :: 0 <= i < |s.reaped| ==>
          var r := s.reaped[i];
          && At(s.ring, r.pid) == None && r.pid < s.nextId
          && r.pid in s.exits && r.code == s.exits[r.pid] && r.pid in s.parents && r.parent == s.parents[r.pid])
    && (forall i, j :: 0 <= i < j < |s.reaped| ==> s.reaped[i].pid != s.reaped[j].pid)
  }

  ghost predicate Sound(s: System) {
    && s.ring != [] && Distinct(s.ring)
    && (forall id: nat :: TaskSound(s, id))
    && ReapedSound(s)
    && (forall id: nat :: id in s.exits ==> id < s.nextId)
  }

  /** task_init. */
  function Booted(): System { System([Task(0, Ready, None, 0, No)], 1, map[], map[], []) }

  lemma BootedSound()
    ensures Sound(Booted())
  {
    var s := Booted();
    forall id: nat ensures TaskSound(s, id) { AtIndex(s.ring, 0); if id != 0 { AtNone(s.ring, id); } }
  }

  /** Switching tasks changes nothing but who runs. */
  lemma SwitchSound(s: System)
    requires Sound(s)
    ensures Sound(s.(ring := Switched(s.ring)))
  {
    var s' := s.(ring := Switched(s.ring));
    SameTasks(s, s');
  }

  /** Soundness depends on the tasks of the ring, not on their order. */
  lemma SameTasks(s: System, s': System)
    requires Sound(s) && s'.ring == Switched(s.ring) && s' == s.(ring := s'.ring)
    ensures Sound(s')
  {
    forall id: nat ensures At(s'.ring, id) == At(s.ring, id) && s'.ring != [] && Distinct(s'.ring) { AtSwitched(s.ring, id); }
    hide At, Switched, Distinct;
    forall id: nat ensures TaskSound(s', id) {
      assert TaskSound(s, id);
      if At(s.ring, id).Some? { WaitSame(s.ring, s'.ring, id, At(s.ring, id).value); }
    }
  }

  lemma WaitSame(ring: seq<Task>, ring': seq<Task>, id: nat, t: Task)
    requires forall c: nat :: At(ring', c) == At(ring, c)
    requires WaitSound(ring, id, t)
    ensures WaitSound(ring', id, t)
  {
    hide At;
    assert forall c: nat :: ChildAt(ring', c, id) == ChildAt(ring, c, id);
  }

  /** One task replaced by a version of itself: still sound, when its wait is and, if it has just ended, its
      parent is not asleep waiting. */
  lemma ReplacedSound(s: System, k: nat, t: Task, exits: map<nat, int>)
    requires Sound(s) && k < |s.ring| && t.id == s.ring[k].id && t.parent == s.ring[k].parent
    requires WaitSound(s.ring[k := t], t.id, t)
    requires if t.state == Zombie && s.ring[k].state != Zombie then exits == s.exits[t.id := t.exitCode] else exits == s.exits
    requires s.ring[k].state == Zombie ==> t.state == Zombie && t.exitCode == s.ring[k].exitCode
    requires t.state == Zombie && t.parent.Some? ==> At(s.ring, t.parent.value).Some? && At(s.ring, t.parent.value).value.state != Blocked
    ensures Sound(s.(ring := s.ring[k := t], exits := exits))
  {
    var s' := s.(ring := s.ring[k := t], exits := exits);
    AtIndex(s.ring, k);
    forall id: nat ensures At(s'.ring, id) == (if id == t.id then Some(t) else At(s.ring, id)) && Distinct(s'.ring) { AtUpdated(s.ring, k, t, id); }
    assert TaskSound(s, t.id);
    var was := s.ring[k];
    hide At, Distinct;
    forall id: nat ensures TaskSound(s', id) {
      assert TaskSound(s, id);
      if id != t.id && At(s.ring, id).Some? { WaitKept(s.ring, s'.ring, t, id); }
    }
    assert ReapedSound(s');
  }

  /** Another task's wait is as sound as it was when a task changes that is not its child, or that has not
      ended, or when it is not asleep. */
  lemma WaitKept(ring: seq<Task>, ring': seq<Task>, t: Task, id: nat)
    requires forall c: nat :: At(ring', c) == if c == t.id then Some(t) else At(ring, c)
    requires At(ring, t.id).Some? && At(ring, t.id).value.parent == t.parent
    requires At(ring, id).Some? && WaitSound(ring, id, At(ring, id).value)
    requires t.state == Zombie && t.parent == Some(id) ==> At(ring, id).value.state != Blocked
    ensures WaitSound(ring', id, At(ring, id).value)
  {
    hide At;
    assert forall c: nat :: ChildAt(ring', c, id) == ChildAt(ring, c, id);
  }

  lemma WakeSound(s: System, id: nat)
    requires Sound(s)
    ensures Sound(s.(ring := Unblocked(s.ring, id)))
  {
    var k := Find(s.ring, id, 0);
    if k < |s.ring| {
      var t := Woken(s.ring[k]);
      assert TaskSound(s, id);
      AtIndex(s.ring, k);
      forall c: nat ensures At(s.ring[k := t], c) == if c == id then Some(t) else At(s.ring, c) { AtUpdated(s.ring, k, t, c); }
      OwnWait(s.ring, s.ring[k := t], id, s.ring[k], t);
      if t.state == Zombie { assert t == s.ring[k] && s.ring[k := t] == s.ring; }
      else { ReplacedSound(s, k, t, s.exits); }
    }
  }

  /** A task's own wait, when the task changes only in state, and is not put to sleep. */
  lemma OwnWait(ring: seq<Task>, ring': seq<Task>, id: nat, was: Task, t: Task)
    requires forall c: nat :: At(ring', c) == if c == id then Some(t) else At(ring, c)
    requires At(ring, id) == Some(was) && t.parent == was.parent && t.waiting == was.waiting && (t.state == Blocked ==> was == t)
    requires WaitSound(ring, id, was)
    ensures WaitSound(ring', id, t)
  {
    hide At;
    assert forall c: nat :: ChildAt(ring', c, id) == ChildAt(ring, c, id);
  }

  lemma CreateSound(s: System)
    requires Sound(s) && Allowed(s, Create)
    ensures Sound(Next(s, Create))
  {
    var self := s.ring[0];
    var t := Task(s.nextId, Ready, Some(self.id), 0, No);
    var s' := Next(s, Create);
    AtIndex(s.ring, 0);
    assert TaskSound(s, self.id);
    forall u <- s.ring ensures u.id < s.nextId {
      var i :| 0 <= i < |s.ring| && s.ring[i] == u;
      AtIndex(s.ring, i);
      assert TaskSound(s, u.id);
    }
    forall id: nat ensures At(s'.ring, id) == (if id == t.id then Some(t) else At(s.ring, id)) && Distinct(s'.ring) { AtInserted(s.ring, t, id); }
    AtNone(s.ring, t.id);
    hide At, Distinct, Inserted;
    forall id: nat ensures TaskSound(s', id) {
      assert TaskSound(s, id);
      if id != t.id && At(s.ring, id).Some? { WaitGrown(s.ring, s'.ring, t, id); }
    }
    assert s'.ring != [];
  }

  lemma WaitGrown(ring: seq<Task>, ring': seq<Task>, t: Task, id: nat)
    requires forall c: nat :: At(ring', c) == if c == t.id then Some(t) else At(ring, c)
    requires At(ring, t.id) == None && t.state == Ready && At(ring, id).Some? && WaitSound(ring, id, At(ring, id).value)
    ensures WaitSound(ring', id, At(ring, id).value)
  {
    hide At;
    forall c: nat ensures ChildAt(ring, c, id) ==> ChildAt(ring', c, id) {}
    forall c: nat ensures ChildAt(ring', c, id) ==> c == t.id || ChildAt(ring, c, id) {}
  }

  lemma EndedSound(s: System, j: nat, code: int)
    requires Sound(s) && j < |s.ring| && s.ring[j].state != Zombie
    ensures Sound(Ended(s, j, code)) && |Ended(s, j, code).ring| == |s.ring|
  {
    var was := s.ring[j];
    var t := was.(state := Zombie, exitCode := code);
    AtIndex(s.ring, j);
    assert TaskSound(s, t.id);
    var s1 := s.(ring := UnblockedParent(s.ring, t));
    if t.parent.Some? {
      var p := t.parent.value;
      WakeSound(s, p);
      AtUnblocked(s.ring, p, p);
      var k := Find(s.ring, p, 0);
      assert k != j;
      assert s1.ring[j := t] == UnblockedParent(s.ring[j := t], t) by { AtIndex(s.ring[j := t], k); }
    }
    assert s1.ring[j] == was;
    AtIndex(s1.ring, j);
    forall c: nat ensures At(s1.ring[j := t], c) == if c == t.id then Some(t) else At(s1.ring, c) { AtUpdated(s1.ring, j, t, c); }
    assert TaskSound(s1, t.id);
    OwnWait(s1.ring, s1.ring[j := t], t.id, was, t);
    ReplacedSound(s1, j, t, s.exits[t.id := code]);
  }

  predicate CanSleep(s: System, waiting: Waiting)
    requires s.ring != []
  {
    && s.ring[0].state != Zombie
    && (waiting == ForAny ==> HasChild(s.ring, s.ring[0].id) && ZombieChild(s.ring, s.ring[0].id, 1) == |s.ring|)
    && (waiting.For? ==> ChildAt(s.ring, waiting.pid, s.ring[0].id) && At(s.ring, waiting.pid).value.state != Zombie)
  }

  /** The running task asleep, before another takes over. */
  function Asleep(s: System, waiting: Waiting): System
    requires s.ring != []
  {
    s.(ring := s.ring[0 := s.ring[0].(state := Blocked, waiting := waiting)])
  }

  /** Going to sleep in a wait is sound when what is waited for is still ahead. */
  lemma AsleepSound(s: System, waiting: Waiting)
    requires Sound(s) && CanSleep(s, waiting)
    ensures Sound(Asleep(s, waiting))
  {
    var id := s.ring[0].id;
    var t := s.ring[0].(state := Blocked, waiting := waiting);
    var ring' := s.ring[0 := t];
    AtIndex(s.ring, 0);
    assert TaskSound(s, id);
    forall c: nat ensures At(ring', c) == if c == id then Some(t) else At(s.ring, c) { AtUpdated(s.ring, 0, t, c); }
    if waiting == ForAny {
      var j :| 0 < j < |s.ring| && IsChild(s.ring[j], id);
      AtIndex(s.ring, j);
      assert ChildAt(ring', s.ring[j].id, id);
      forall c: nat | ChildAt(ring', c, id) ensures At(ring', c).value.state != Zombie {
        var i := Find(s.ring, c, 0);
        assert i > 0 ==> !(IsChild(s.ring[i], id) && s.ring[i].state == Zombie);
      }
    }
    ReplacedSound(s, 0, t, s.exits);
  }

  lemma SleepSound(s: System, waiting: Waiting)
    requires Sound(s) && CanSleep(s, waiting)
    ensures Sound(BlockedNow(s, waiting))
  {
    AsleepSound(s, waiting);
    SwitchSound(Asleep(s, waiting));
  }

  /** A wait call that returns without a child leaves the task awake to it. */
  lemma DoneWaitingSound(s: System)
    requires Sound(s) && s.ring[0].state != Zombie
    ensures Sound(s.(ring := s.ring[0 := s.ring[0].(waiting := No)]))
  {
    AtIndex(s.ring, 0);
    assert TaskSound(s, s.ring[0].id);
    ReplacedSound(s, 0, s.ring[0].(waiting := No), s.exits);
  }

  lemma ReapSound(s: System, j: nat)
    requires Sound(s) && 0 < j < |s.ring| && IsChild(s.ring[j], s.ring[0].id) && s.ring[j].state == Zombie
    requires Childless(s.ring, s.ring[j].id) && s.ring[0].state != Zombie
    ensures Sound(Reap(s, j))
  {
    var s1 := s.(ring := s.ring[0 := s.ring[0].(waiting := No)]);
    var dead, self := s.ring[j], s1.ring[0];
    DoneWaitingSound(s);
    AtIndex(s1.ring, j);
    AtIndex(s1.ring, 0);
    assert TaskSound(s1, dead.id) && TaskSound(s1, self.id);
    var s' := Reap(s, j);
    forall id: nat ensures At(s'.ring, id) == (if id == dead.id then None else At(s1.ring, id)) && Distinct(s'.ring) { AtWithout(s1.ring, j, id); }
    forall c: nat | At(s1.ring, c).Some? ensures !IsChild(At(s1.ring, c).value, dead.id) {
      var i := Find(s1.ring, c, 0);
      assert s.ring[i] in s.ring && !IsChild(s.ring[i], dead.id);
    }
    hide At, Distinct, Without, Childless;
    forall id: nat ensures TaskSound(s', id) {
      assert TaskSound(s1, id);
      if id != dead.id && At(s1.ring, id).Some? { WaitShrunk(s1.ring, s'.ring, dead, id, self); }
    }
    assert |s'.ring| == |s.ring| - 1 by { assert |Without(s1.ring, j)| == |s.ring| - 1; }
    ReapedMore(s1, s', dead, self);
  }

  lemma WaitShrunk(ring: seq<Task>, ring': seq<Task>, dead: Task, id: nat, self: Task)
    requires forall c: nat :: At(ring', c) == if c == dead.id then None else At(ring, c)
    requires At(ring, id).Some? && WaitSound(ring, id, At(ring, id).value) && At(ring, dead.id) == Some(dead)
    requires dead.parent == Some(self.id) && At(ring, self.id) == Some(self) && self.waiting == No
    ensures WaitSound(ring', id, At(ring, id).value)
  {
    hide At;
    assert id != self.id ==> forall c: nat :: ChildAt(ring', c, id) == ChildAt(ring, c, id);
  }

  lemma ReapedMore(s: System, s': System, dead: Task, self: Task)
    requires ReapedSound(s) && s' == s.(ring := s'.ring, reaped := s.reaped + [Reaping(self.id, dead.id, dead.exitCode)])
    requires forall c: nat :: At(s'.ring, c) == if c == dead.id then None else At(s.ring, c)
    requires At(s.ring, dead.id) == Some(dead) && dead.parent == Some(self.id) && dead.state == Zombie && TaskSound(s, dead.id)
    ensures ReapedSound(s')
  {
    hide At, WaitSound;
    forall i | 0 <= i < |s'.reaped|
      ensures var r := s'.reaped[i];
        && At(s'.ring, r.pid) == None && r.pid < s'.nextId
        && r.pid in s'.exits && r.code == s'.exits[r.pid] && r.pid in s'.parents && r.parent == s'.parents[r.pid]
    {
      if i < |s.reaped| { assert s'.reaped[i] == s.reaped[i]; }
    }
    forall i, j | 0 <= i < j < |s'.reaped| ensures s'.reaped[i].pid != s'.reaped[j].pid {
      assert s'.reaped[i] == s.reaped[i] && (j < |s.reaped| ==> s'.reaped[j] == s.reaped[j]);
    }
  }

  /** Every step that can happen keeps the system sound. */
  lemma NextSound(s: System, e: Event)
    requires Sound(s) && Allowed(s, e)
    ensures Sound(Next(s, e))
  {
    var self := s.ring[0];
    AtIndex(s.ring, 0);
    match e
    case Yield => SwitchSound(s);
    case Create => CreateSound(s);
    case Block => SleepSound(s, No);
    case Wake(id) => WakeSound(s, id);
    case Exit(code) =>
      EndedSound(s, 0, code);
      SwitchSound(Ended(s, 0, code));
    case Terminate(id, code) =>
      var j := Find(s.ring, id, 1);
      if j < |s.ring| {
        assert s.ring[j] in s.ring;
        EndedSound(s, j, code);
      }
    case WaitAny =>
      var j := ZombieChild(s.ring, self.id, 1);
      if j < |s.ring| { ReapSound(s, j); }
      else if HasChild(s.ring, self.id) { SleepSound(s, ForAny); }
      else { DoneWaitingSound(s); }
    case WaitFor(pid) => WaitForSound(s, pid);
  }

  lemma WaitForSound(s: System, pid: nat)
    requires Sound(s) && Allowed(s, WaitFor(pid))
    ensures Sound(Next(s, WaitFor(pid)))
  {
    var self := s.ring[0];
    var t :| t in s.ring && t.id == pid && IsChild(t, self.id);
    var i :| 0 <= i < |s.ring| && s.ring[i] == t;
    AtIndex(s.ring, i);
    AtIndex(s.ring, 0);
    assert TaskSound(s, pid);
    var j := Find(s.ring, pid, 1);
    assert j == i;
    if t.state == Zombie { ReapSound(s, j); } else { SleepSound(s, For(pid)); }
  }

  // ---------------------------------------------------------------- whole runs

  predicate AllAllowed(s: System, es: seq<Event>)
    requires s.ring != []
    decreases |es|
  {
    es == [] || (Allowed(s, es[0]) && AllAllowed(Next(s, es[0]), es[1..]))
  }

  function After(s: System, es: seq<Event>): (s': System)
    requires s.ring != []
    ensures s'.ring != []
    decreases |es|
  {
    if es == [] then s else After(Next(s, es[0]), es[1..])
  }

  lemma {:induction false} RunSound(s: System, es: seq<Event>)
    requires Sound(s) && AllAllowed(s, es)
    ensures Sound(After(s, es))
    decreases |es|
  {
    if es != [] {
      NextSound(s, es[0]);
      RunSound(Next(s, es[0]), es[1..]);
    }
  }

  /** From boot on, whatever happens: a task asleep in a wait call has a child and no zombie child, or, if it waits for
      one child, that child is there and no zombie; and every task reaped was reaped once, by its creator, which was
      told the code the task exited with. */
  lemma ExitAndWait(es: seq<Event>)
    requires AllAllowed(Booted(), es)
    ensures var s := After(Booted(), es);
      && (forall t <- s.ring :: t.state == Blocked && t.waiting == ForAny ==>
            (exists c <- s.ring :: IsChild(c, t.id)) && (forall c <- s.ring :: IsChild(c, t.id) ==> c.state != Zombie))
      && (forall t <- s.ring :: t.state == Blocked && t.waiting.For? ==>
            exists c <- s.ring :: c.id == t.waiting.pid && IsChild(c, t.id) && c.state != Zombie)
      && (forall i, j :: 0 <= i < j < |s.reaped| ==> s.reaped[i].pid != s.reaped[j].pid)
      && (forall r <- s.reaped :: r.pid in s.exits && r.code == s.exits[r.pid] && r.pid in s.parents && r.parent == s.parents[r.pid])
  {
    BootedSound();
    RunSound(Booted(), es);
    var s := After(Booted(), es);
    forall t <- s.ring | t.state == Blocked && t.waiting.For?
      ensures exists c <- s.ring :: c.id == t.waiting.pid && IsChild(c, t.id) && c.state != Zombie
    {
      var i :| 0 <= i < |s.ring| && s.ring[i] == t;
      AtIndex(s.ring, i);
      assert TaskSound(s, t.id) && WaitSound(s.ring, t.id, t);
      assert At(s.ring, t.waiting.pid).value in s.ring;
    }
    forall t <- s.ring | t.state == Blocked && t.waiting == ForAny
      ensures (exists c <- s.ring :: IsChild(c, t.id)) && (forall c <- s.ring :: IsChild(c, t.id) ==> c.state != Zombie)
    {
      var i :| 0 <= i < |s.ring| && s.ring[i] == t;
      AtIndex(s.ring, i);
      assert TaskSound(s, t.id) && WaitSound(s.ring, t.id, t);
      var c :| ChildAt(s.ring, c, t.id);
      assert At(s.ring, c).value in s.ring;
      forall u <- s.ring | IsChild(u, t.id) ensures u.state != Zombie {
        var k :| 0 <= k < |s.ring| && s.ring[k] == u;
        AtIndex(s.ring, k);
        assert ChildAt(s.ring, u.id, t.id);
      }
    }
  }

  // ---------------------------------------------------------------- bounded waiting

  /** Whether a step puts another task on the processor. */
  predicate Switches(s: System, e: Event)
    requires s.ring != []
  {
    Next(s, e).ring[0].id != s.ring[0].id
  }

  function SwitchCount(s: System, es: seq<Event>): nat
    requires s.ring != []
    decreases |es|
  {
    if es == [] then 0 else (if Switches(s, es[0]) then 1 else 0) + SwitchCount(Next(s, es[0]), es[1..])
  }

  function CreateCount(es: seq<Event>): nat {
    if es == [] then 0 else (if es[0] == Create then 1 else 0) + CreateCount(es[1..])
  }

  /** The task is READY and not running. */
  predicate WaitsItsTurn(s: System, id: nat) {
    s.ring != [] && s.ring[0].id != id && At(s.ring, id).Some? && At(s.ring, id).value.state == Ready
  }

  predicate WaitsThroughout(s: System, es: seq<Event>, id: nat)
    decreases |es|
  {
    WaitsItsTurn(s, id) && (es == [] || WaitsThroughout(Next(s, es[0]), es[1..], id))
  }

  function Place(s: System, id: nat): nat { Find(s.ring, id, 0) }

  /** A switch that does not reach the task brings it closer. */
  lemma SwitchMoves(ring: seq<Task>, id: nat)
    requires ring != [] && Distinct(ring) && 0 < Find(ring, id, 0) < |ring| && ring[Find(ring, id, 0)].state == Ready
    ensures Switched(ring)[0].id != ring[0].id && Switched(ring)[0].state == Ready
    ensures Switched(ring)[0].id != id ==> Find(Switched(ring), id, 0) < Find(ring, id, 0)
  {
    var p, k, r := Find(ring, id, 0), NextReady(ring, 1), Switched(ring);
    assert r[0] == ring[k];
    AtSwitched(ring, id);
    if k < p {
      assert r[p - k] == ring[p];
      AtIndex(r, p - k);
    }
  }

  lemma StepMoves(s: System, e: Event, id: nat)
    requires Sound(s) && Allowed(s, e) && WaitsItsTurn(s, id) && WaitsItsTurn(Next(s, e), id)
    ensures Place(Next(s, e), id) + (if Switches(s, e) then 1 else 0) <= Place(s, id) + if e == Create then 1 else 0
  {
    var p, self := Place(s, id), s.ring[0];
    match e
    case Yield => SwitchMoves(s.ring, id);
    case Create =>
      NextSound(s, e);
      assert Next(s, e).ring[p + 1] == s.ring[p];
      AtIndex(Next(s, e).ring, p + 1);
    case Block => SleepMoves(s, No, id);
    case Wake(w) => WakeMoves(s.ring, w, id);
    case Exit(code) =>
      EndedMoves(s, 0, code, id);
      EndedSound(s, 0, code);
      SwitchMoves(Ended(s, 0, code).ring, id);
    case Terminate(w, code) =>
      var j := Find(s.ring, w, 1);
      if j < |s.ring| {
        assert s.ring[j] in s.ring;
        if j == p { EndedIs(s, j, code); } else { EndedMoves(s, j, code, id); }
      }
    case WaitAny =>
      var j := ZombieChild(s.ring, self.id, 1);
      if j < |s.ring| { ReapMoves(s, j, id); }
      else if HasChild(s.ring, self.id) { SleepMoves(s, ForAny, id); }
      else { UpdateMoves(s.ring, 0, self.(waiting := No), id); }
    case WaitFor(pid) =>
      var j := Find(s.ring, pid, 1);
      if j < |s.ring| {
        if s.ring[j].state == Zombie { ReapMoves(s, j, id); } else { SleepMoves(s, For(pid), id); }
      }
  }

  lemma UpdateMoves(ring: seq<Task>, k: nat, t: Task, id: nat)
    requires Distinct(ring) && k < |ring| && t.id == ring[k].id
    ensures Distinct(ring[k := t]) && Find(ring[k := t], id, 0) == Find(ring, id, 0)
  {
    var p, r := Find(ring, id, 0), ring[k := t];
    AtUpdated(ring, k, t, id);
    if p < |ring| { assert r[p].id == id; AtIndex(r, p); }
  }

  lemma WakeMoves(ring: seq<Task>, w: nat, id: nat)
    requires Distinct(ring)
    ensures Distinct(Unblocked(ring, w)) && Find(Unblocked(ring, w), id, 0) == Find(ring, id, 0)
    ensures forall i :: 0 <= i < |ring| ==> Unblocked(ring, w)[i].id == ring[i].id
    ensures forall i :: 0 <= i < |ring| && ring[i].state != Blocked ==> Unblocked(ring, w)[i] == ring[i]
  {
    var k := Find(ring, w, 0);
    AtUnblocked(ring, w, id);
    if k < |ring| { UpdateMoves(ring, k, Woken(ring[k]), id); }
  }

  lemma EndedMoves(s: System, j: nat, code: int, id: nat)
    requires Sound(s) && j < |s.ring| && Find(s.ring, id, 0) != j
    ensures Find(Ended(s, j, code).ring, id, 0) == Find(s.ring, id, 0)
    ensures forall i :: 0 <= i < |s.ring| ==> Ended(s, j, code).ring[i].id == s.ring[i].id
    ensures Find(s.ring, id, 0) < |s.ring| && s.ring[Find(s.ring, id, 0)].state == Ready ==>
      Ended(s, j, code).ring[Find(s.ring, id, 0)].state == Ready
  {
    var t := s.ring[j].(state := Zombie, exitCode := code);
    UpdateMoves(s.ring, j, t, id);
    if t.parent.Some? { WakeMoves(s.ring[j := t], t.parent.value, id); }
  }

  /** A task that ends is no longer READY. */
  lemma EndedIs(s: System, j: nat, code: int)
    requires Sound(s) && j < |s.ring|
    ensures At(Ended(s, j, code).ring, s.ring[j].id).Some? && At(Ended(s, j, code).ring, s.ring[j].id).value.state == Zombie
  {
    var t := s.ring[j].(state := Zombie, exitCode := code);
    AtIndex(s.ring, j);
    AtUpdated(s.ring, j, t, t.id);
    if t.parent.Some? { AtUnblocked(s.ring[j := t], t.parent.value, t.id); }
  }

  lemma SleepMoves(s: System, waiting: Waiting, id: nat)
    requires Sound(s) && WaitsItsTurn(s, id) && BlockedNow(s, waiting).ring[0].id != id
    ensures Find(BlockedNow(s, waiting).ring, id, 0) < Find(s.ring, id, 0)
    ensures BlockedNow(s, waiting).ring[0].id != s.ring[0].id
  {
    var t := s.ring[0].(state := Blocked, waiting := waiting);
    UpdateMoves(s.ring, 0, t, id);
    SwitchMoves(s.ring[0 := t], id);
  }

  lemma ReapMoves(s: System, j: nat, id: nat)
    requires Sound(s) && 0 < j < |s.ring| && WaitsItsTurn(s, id) && s.ring[j].state == Zombie
    ensures Find(Reap(s, j).ring, id, 0) <= Find(s.ring, id, 0) && Reap(s, j).ring[0].id == s.ring[0].id
  {
    var r0 := s.ring[0 := s.ring[0].(waiting := No)];
    var p := Find(s.ring, id, 0);
    UpdateMoves(s.ring, 0, r0[0], id);
    AtWithout(r0, j, id);
    var p' := if p < j then p else p - 1;
    assert p != j && Without(r0, j)[p'] == r0[p];
    AtIndex(Without(r0, j), p');
  }

  /** Switches are paid for by the distance to the task and by the tasks created on the way. */
  lemma {:induction false} TurnsPaid(s: System, es: seq<Event>, id: nat)
    requires Sound(s) && AllAllowed(s, es) && WaitsThroughout(s, es, id)
    ensures SwitchCount(s, es) + 1 <= Place(s, id) + CreateCount(es)
    decreases |es|
  {
    if es != [] {
      StepMoves(s, es[0], id);
      NextSound(s, es[0]);
      TurnsPaid(Next(s, es[0]), es[1..], id);
    }
  }

  /** Bounded waiting: in a ring of n tasks, a READY task is running after at most n - 1 switches, and one
      more for every task created meanwhile. */
  lemma BoundedWaiting(s: System, es: seq<Event>, id: nat)
    requires Sound(s) && AllAllowed(s, es) && WaitsThroughout(s, es, id)
    ensures SwitchCount(s, es) < |s.ring| - 1 + CreateCount(es)
  {
    TurnsPaid(s, es, id);
  }

  lemma EndedIds(s: System, j: nat, code: int)
    requires Sound(s) && j < |s.ring|
    ensures Ended(s, j, code).ring[0].id == s.ring[0].id
  {
    var t := s.ring[j].(state := Zombie, exitCode := code);
    AtUpdated(s.ring, j, t, t.id);
    if t.parent.Some? { WakeMoves(s.ring[j := t], t.parent.value, t.id); }
  }

  /** Nobody BLOCKED or ended is ever switched to. */
  lemma OnlyReadyRun(s: System, e: Event)
    requires Sound(s) && Allowed(s, e)
    ensures Switches(s, e) ==> Next(s, e).ring[0].state == Ready
  {
    match e
    case Exit(code) => EndedIds(s, 0, code);
    case Terminate(id, code) =>
      var j := Find(s.ring, id, 1);
      if j < |s.ring| { EndedIds(s, j, code); }
    case Wake(id) => WakeMoves(s.ring, id, id);
    case _ =>
  }
}
