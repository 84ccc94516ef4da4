/** What the events of Tasks come to, said of each task by itself: its state after every event, who runs next, when a task's turn
    comes, and, over whole runs, the story of every task that was reaped. */
module TaskEffects {
  import opened Options
  import opened Tasks

  // ---------------------------------------------------------------- one task after one event

  /** A switch changes no task. */
  lemma YieldEffect(s: System, id: nat)
    requires Sound(s)
    ensures At(Next(s, Yield).ring, id) == At(s.ring, id)
  {
    AtSwitched(s.ring, id);
  }

  /** A new task is READY, under the next id, and right behind the running one, which is its parent. */
  lemma CreateEffect(s: System, id: nat)
    requires Sound(s)
    ensures var t := Task(s.nextId, Ready, Some(s.ring[0].id), 0, No); var s' := Next(s, Create);
      && s'.ring == [s.ring[0], t] + s.ring[1..] && s'.nextId == s.nextId + 1
      && At(s'.ring, id) == if id == s.nextId then Some(t) else At(s.ring, id)
  {
    forall u <- s.ring ensures u.id != s.nextId { InRing(s, u); }
    hide Sound;
    AtInserted(s.ring, Task(s.nextId, Ready, Some(s.ring[0].id), 0, No), id);
  }

  lemma InRing(s: System, t: Task)
    requires Sound(s) && t in s.ring
    ensures t.id < s.nextId && At(s.ring, t.id) == Some(t)
  {
    var i :| 0 <= i < |s.ring| && s.ring[i] == t;
    AtIndex(s.ring, i);
    assert TaskSound(s, t.id);
  }

  /** Blocking changes the running task alone. */
  lemma BlockEffect(s: System, id: nat)
    requires Sound(s)
    ensures At(Next(s, Block).ring, id) == if id == s.ring[0].id then Some(s.ring[0].(state := Blocked, waiting := No)) else At(s.ring, id)
  {
    SleepEffect(s, No, id);
  }

  lemma SleepEffect(s: System, waiting: Waiting, id: nat)
    requires Sound(s)
    ensures At(BlockedNow(s, waiting).ring, id) ==
      if id == s.ring[0].id then Some(s.ring[0].(state := Blocked, waiting := waiting)) else At(s.ring, id)
  {
    var t := s.ring[0].(state := Blocked, waiting := waiting);
    AtUpdated(s.ring, 0, t, id);
    AtSwitched(s.ring[0 := t], id);
  }

  /** A BLOCKED task that is woken is READY, and nothing else changes. */
  lemma WakeEffect(s: System, w: nat, id: nat)
    requires Sound(s)
    ensures var was, now := At(s.ring, id), At(Next(s, Wake(w)).ring, id);
      now == if id == w && was.Some? && was.value.state == Blocked then Some(was.value.(state := Ready)) else was
  {
    AtUnblocked(s.ring, w, id);
  }

  /** A task that ends is a zombie with its code, its parent is READY if it was BLOCKED, and nobody else changes. */
  lemma EndEffect(s: System, j: nat, code: int, id: nat)
    requires Sound(s) && j < |s.ring|
    ensures var dead, was, now := s.ring[j], At(s.ring, id), At(Ended(s, j, code).ring, id);
      && Distinct(Ended(s, j, code).ring)
      && now ==
        if id == dead.id then Some(dead.(state := Zombie, exitCode := code))
        else if dead.parent == Some(id) && was.Some? && was.value.state == Blocked then Some(was.value.(state := Ready))
        else was
  {
    InRing(s, s.ring[j]);
    AtIndex(s.ring, j);
    assert TaskSound(s, s.ring[j].id);
    var t := s.ring[j].(state := Zombie, exitCode := code);
    AtUpdated(s.ring, j, t, id);
    if t.parent.Some? { AtUnblocked(s.ring[j := t], t.parent.value, id); }
  }

  lemma ExitEffect(s: System, code: int, id: nat)
    requires Sound(s)
    ensures var dead, was, now := s.ring[0], At(s.ring, id), At(Next(s, Exit(code)).ring, id);
      now ==
        if id == dead.id then Some(dead.(state := Zombie, exitCode := code))
        else if dead.parent == Some(id) && was.Some? && was.value.state == Blocked then Some(was.value.(state := Ready))
        else was
  {
    EndEffect(s, 0, code, id);
    hide Sound, Ended;
    if |s.ring| > 1 { AtSwitched(Ended(s, 0, code).ring, id); }
  }

  /** Terminating another task ends it in the same way. */
  lemma TerminateEffect(s: System, d: nat, code: int, id: nat)
    requires Sound(s) && d != s.ring[0].id && At(s.ring, d).Some?
    ensures var dead, was, now := At(s.ring, d).value, At(s.ring, id), At(Next(s, Terminate(d, code)).ring, id);
      now ==
        if id == d then Some(dead.(state := Zombie, exitCode := code))
        else if dead.parent == Some(id) && was.Some? && was.value.state == Blocked then Some(was.value.(state := Ready))
        else was
  {
    var j := Find(s.ring, d, 1);
    assert Find(s.ring, d, 0) == j;
    EndEffect(s, j, code, id);
    hide Sound, Ended;
  }

  /** Where no child is a zombie, a wait for any child sleeps if there is a child, and is over if there is none. */
  lemma WaitAnySleeps(s: System, id: nat)
    requires Sound(s) && forall j :: 0 < j < |s.ring| ==> !(s.ring[j].parent == Some(s.ring[0].id) && s.ring[j].state == Zombie)
    ensures Next(s, WaitAny).reaped == s.reaped
    ensures var self := s.ring[0]; var children := exists j :: 0 < j < |s.ring| && s.ring[j].parent == Some(self.id);
      At(Next(s, WaitAny).ring, id) ==
        if id != self.id then At(s.ring, id)
        else if children then Some(self.(state := Blocked, waiting := ForAny)) else Some(self.(waiting := No))
  {
    var self := s.ring[0];
    assert HasChild(s.ring, self.id) <==> exists j :: 0 < j < |s.ring| && s.ring[j].parent == Some(self.id) by {
      if j :| 0 < j < |s.ring| && s.ring[j].parent == Some(self.id) { assert IsChild(s.ring[j], self.id); }
    }
    SleepEffect(s, ForAny, id);
    AtUpdated(s.ring, 0, self.(waiting := No), id);
    hide Sound, BlockedNow, At;
    assert ZombieChild(s.ring, self.id, 1) == |s.ring|;
  }

  /** Of the zombie children the first behind the running task is reaped: it is gone, with its code told. */
  lemma WaitAnyReaps(s: System, j: nat, id: nat)
    requires Sound(s) && 0 < j < |s.ring| && s.ring[j].parent == Some(s.ring[0].id) && s.ring[j].state == Zombie
    requires forall i :: 0 < i < j ==> !(s.ring[i].parent == Some(s.ring[0].id) && s.ring[i].state == Zombie)
    ensures Next(s, WaitAny).reaped == s.reaped + [Reaping(s.ring[0].id, s.ring[j].id, s.ring[j].exitCode)]
    ensures At(Next(s, WaitAny).ring, id) ==
      if id == s.ring[j].id then None else if id == s.ring[0].id then Some(s.ring[0].(waiting := No)) else At(s.ring, id)
  {
    assert ZombieChild(s.ring, s.ring[0].id, 1) == j;
    ReapEffect(s, j, id);
    hide Sound, At, ZombieChild, Tasks.Reap;
  }

  lemma ReapEffect(s: System, j: nat, id: nat)
    requires Sound(s) && 0 < j < |s.ring|
    ensures Reap(s, j).reaped == s.reaped + [Reaping(s.ring[0].id, s.ring[j].id, s.ring[j].exitCode)]
    ensures At(Reap(s, j).ring, id) ==
      if id == s.ring[j].id then None else if id == s.ring[0].id then Some(s.ring[0].(waiting := No)) else At(s.ring, id)
  {
    var self := s.ring[0].(waiting := No);
    AtUpdated(s.ring, 0, self, id);
    AtWithout(s.ring[0 := self], j, id);
  }

  /** A wait for one child reaps it if it is a zombie, and sleeps if it is not. */
  lemma WaitForEffect(s: System, j: nat, id: nat)
    requires Sound(s) && 0 < j < |s.ring|
    ensures var self, child, s' := s.ring[0], s.ring[j], Next(s, WaitFor(s.ring[j].id));
      if child.state == Zombie then
        && s'.reaped == s.reaped + [Reaping(self.id, child.id, child.exitCode)]
        && At(s'.ring, id) == if id == child.id then None else if id == self.id then Some(self.(waiting := No)) else At(s.ring, id)
      else
        && s'.reaped == s.reaped
        && At(s'.ring, id) == if id == self.id then Some(self.(state := Blocked, waiting := For(child.id))) else At(s.ring, id)
  {
    assert Find(s.ring, s.ring[j].id, 1) == j;
    ReapEffect(s, j, id);
    SleepEffect(s, For(s.ring[j].id), id);
    hide Sound, At, Find, Tasks.Reap;
  }

  // ---------------------------------------------------------------- who runs next

  /** The running task gives way: it yields, goes to sleep or ends. */
  predicate GivesWay(s: System, e: Event)
    requires s.ring != []
  {
    match e
    case Yield => true
    case Block => true
    case Exit(_) => |s.ring| > 1
    case WaitAny =>
      && (exists j :: 0 < j < |s.ring| && IsChild(s.ring[j], s.ring[0].id))
      && (forall j :: 0 < j < |s.ring| && IsChild(s.ring[j], s.ring[0].id) ==> s.ring[j].state != Zombie)
    case WaitFor(pid) => forall j :: 0 < j < |s.ring| && s.ring[j].id == pid ==> s.ring[j].state != Zombie
    case _ => false
  }

  /** The ring turned by k places. */
  ghost predicate Turned(ring: seq<Task>, ring': seq<Task>, k: nat) {
    k <= |ring| == |ring'| && forall i :: 0 <= i < |ring| ==> ring'[i].id == ring[if i + k < |ring| then i + k else i + k - |ring|].id
  }

  /** The first READY task behind the running one is next, and if there is none the running one goes on. */
  ghost predicate FirstReady(ring: seq<Task>, ring': seq<Task>, k: nat)
    requires 0 < k && Turned(ring, ring', k)
  {
    && (forall j :: 0 < j < k ==> At(ring', ring[j].id).Some? && At(ring', ring[j].id).value.state != Ready)
    && (k < |ring| ==> ring'[0].state == Ready)
  }

  lemma SwitchedFirst(ring: seq<Task>, was: seq<Task>)
    requires ring != [] && Distinct(ring) && |was| == |ring| && forall i :: 0 <= i < |ring| ==> was[i].id == ring[i].id
    ensures exists k :: 0 < k && Turned(was, Switched(ring), k) && FirstReady(was, Switched(ring), k)
  {
    var k, r := NextReady(ring, 1), Switched(ring);
    assert Turned(was, r, k);
    forall j | 0 < j < k
      ensures At(r, was[j].id).Some? && At(r, was[j].id).value.state != Ready
    {
      AtSwitched(ring, ring[j].id);
      AtIndex(ring, j);
    }
  }

  /** Whoever gives way, the first READY task behind is next; and nobody else is ever put on the processor. */
  lemma NextRunner(s: System, e: Event)
    requires Sound(s) && Allowed(s, e)
    ensures GivesWay(s, e) ==> exists k :: 0 < k && Turned(s.ring, Next(s, e).ring, k) && FirstReady(s.ring, Next(s, e).ring, k)
    ensures !GivesWay(s, e) ==> Next(s, e).ring[0].id == s.ring[0].id
  {
    if GivesWay(s, e) {
      var ring := LeftBehind(s, e);
      hide Sound, Allowed, GivesWay, Turned, FirstReady, Next, Switched;
      SwitchedFirst(ring, s.ring);
    } else {
      StaysOn(s, e);
    }
  }

  lemma LeftBehind(s: System, e: Event) returns (ring: seq<Task>)
    requires Sound(s) && Allowed(s, e) && GivesWay(s, e)
    ensures ring != [] && Distinct(ring) && |ring| == |s.ring| && forall i :: 0 <= i < |ring| ==> s.ring[i].id == ring[i].id
    ensures Next(s, e).ring == Switched(ring)
  {
    var self := s.ring[0];
    match e
    case Yield => ring := s.ring;
    case Block => ring := s.ring[0 := self.(state := Blocked, waiting := No)];
    case Exit(code) =>
      ring := Ended(s, 0, code).ring;
      EndEffect(s, 0, code, 0);
      EndedIds(s, 0, code);
    case WaitAny =>
      ring := s.ring[0 := self.(state := Blocked, waiting := ForAny)];
      assert ZombieChild(s.ring, self.id, 1) == |s.ring|;
    case WaitFor(pid) =>
      ring := s.ring[0 := self.(state := Blocked, waiting := For(pid))];
      WaitedBehind(s, pid);
  }

  lemma WaitedBehind(s: System, pid: nat)
    requires Sound(s) && Allowed(s, WaitFor(pid))
    ensures Find(s.ring, pid, 1) < |s.ring|
  {
    var self := s.ring[0];
    var t :| t in s.ring && t.id == pid && IsChild(t, self.id);
    InRing(s, t);
    InRing(s, self);
    assert TaskSound(s, pid);
    var i :| 0 <= i < |s.ring| && s.ring[i] == t;
    assert i > 0;
  }

  lemma StaysOn(s: System, e: Event)
    requires Sound(s) && Allowed(s, e) && !GivesWay(s, e)
    ensures Next(s, e).ring[0].id == s.ring[0].id
  {
    match e
    case Wake(id) =>
    case Exit(code) => EndedIds(s, 0, code);
    case Terminate(id, code) =>
      var j := Find(s.ring, id, 1);
      if j < |s.ring| { EndedIds(s, j, code); }
    case WaitAny => assert ZombieChild(s.ring, s.ring[0].id, 1) < |s.ring| || !HasChild(s.ring, s.ring[0].id);
    case WaitFor(pid) => assert Find(s.ring, pid, 1) < |s.ring| ==> s.ring[Find(s.ring, pid, 1)].state == Zombie by { OnlyOne(s, pid); }
    case _ =>
  }

  lemma OnlyOne(s: System, pid: nat)
    requires Sound(s) && !GivesWay(s, WaitFor(pid))
    ensures Find(s.ring, pid, 1) < |s.ring| && s.ring[Find(s.ring, pid, 1)].state == Zombie
  {
    var j :| 0 < j < |s.ring| && s.ring[j].id == pid && s.ring[j].state == Zombie;
    assert Find(s.ring, pid, 1) == j;
  }

  function Yields(n: nat): seq<Event> { seq(n, _ => Yield) }

  /** A READY task has its turn after at most as many switches as there are tasks before it. */
  lemma {:induction false} TurnComes(s: System, id: nat) returns (n: nat)
    requires Sound(s) && At(s.ring, id).Some? && At(s.ring, id).value.state == Ready
    ensures n <= Place(s, id) && After(s, Yields(n)).ring[0].id == id
    decreases Place(s, id)
  {
    n := 0;
    if Place(s, id) > 0 {
      var s' := Next(s, Yield);
      SwitchMoves(s.ring, id);
      SwitchSound(s);
      YieldEffect(s, id);
      if s'.ring[0].id != id {
        hide Sound, At, Next;
        n := TurnComes(s', id);
      } else {
        assert After(s', []) == s';
      }
      n := n + 1;
      assert Yields(n)[1..] == Yields(n - 1);
    }
  }

  // ---------------------------------------------------------------- the story of a task, over whole runs

  /** The system after the first n events from boot. */
  function Then(es: seq<Event>, n: nat): (s: System)
    requires n <= |es|
    ensures s.ring != []
  {
    After(Booted(), es[..n])
  }

  /** At the n-th event of a run a task is created by another. */
  ghost predicate CreatedAt(es: seq<Event>, n: nat, pid: nat, parent: nat) {
    n < |es| && es[n] == Create && Then(es, n).nextId == pid && Then(es, n).ring[0].id == parent
  }

  /** At the n-th event of a run a task ends with a code: it exits with it, or another task terminates it with it. */
  ghost predicate EndedAt(es: seq<Event>, n: nat, pid: nat, code: int) {
    n < |es| && ((es[n] == Exit(code) && Then(es, n).ring[0].id == pid) || es[n] == Terminate(pid, code))
  }

  /** At the n-th event of a run a task is reaped by a wait call of its parent. */
  ghost predicate ReapedAt(es: seq<Event>, n: nat, pid: nat, parent: nat) {
    n < |es| && (es[n] == WaitAny || es[n] == WaitFor(pid)) && Then(es, n).ring[0].id == parent
  }

  ghost predicate Told(es: seq<Event>) {
    var s := After(Booted(), es);
    && (forall id: nat :: id in s.parents ==> WasCreated(es, id, s.parents[id], |es|))
    && (forall id: nat :: id in s.exits ==> HasEnded(es, id, s.exits[id], id in s.parents))
  }

  ghost predicate WasCreated(es: seq<Event>, id: nat, parent: nat, before: nat) {
    exists c: nat :: c < before && CreatedAt(es, c, id, parent)
  }

  ghost predicate HasEnded(es: seq<Event>, id: nat, code: int, born: bool) {
    exists x: nat :: EndedAt(es, x, id, code) && (born ==> exists parent: nat :: WasCreated(es, id, parent, x))
  }

  lemma {:induction false} AfterLast(s: System, es: seq<Event>, e: Event)
    requires s.ring != []
    ensures After(s, es + [e]) == Next(After(s, es), e)
    ensures AllAllowed(s, es + [e]) <==> AllAllowed(s, es) && Allowed(After(s, es), e)
    decreases |es|
  {
    hide Next, Allowed;
    if es == [] {
      assert [e][1..] == [] && es + [e] == [e];
    } else {
      assert (es + [e])[1..] == es[1..] + [e];
      AfterLast(Next(s, es[0]), es[1..], e);
    }
  }

  /** What was so at an event is so in every longer run. */
  lemma StaysTold(es: seq<Event>, e: Event)
    ensures forall n: nat, id: nat, p: nat :: CreatedAt(es, n, id, p) ==> CreatedAt(es + [e], n, id, p)
    ensures forall n: nat, id: nat, code: int :: EndedAt(es, n, id, code) ==> EndedAt(es + [e], n, id, code)
  {
    assert forall n: nat :: n <= |es| ==> (es + [e])[..n] == es[..n];
  }

  lemma CreatedStays(es: seq<Event>, e: Event, id: nat, parent: nat, before: nat)
    requires WasCreated(es, id, parent, before)
    ensures WasCreated(es + [e], id, parent, before) && (before == |es| ==> WasCreated(es + [e], id, parent, |es| + 1))
  {
    StaysTold(es, e);
    hide CreatedAt;
    var c: nat :| c < before && CreatedAt(es, c, id, parent);
    assert CreatedAt(es + [e], c, id, parent);
  }

  lemma EndedStays(es: seq<Event>, e: Event, id: nat, code: int, born: bool)
    requires HasEnded(es, id, code, born)
    ensures HasEnded(es + [e], id, code, born)
  {
    StaysTold(es, e);
    hide EndedAt, WasCreated;
    var x: nat :| EndedAt(es, x, id, code) && (born ==> exists parent: nat :: WasCreated(es, id, parent, x));
    assert EndedAt(es + [e], x, id, code);
    if born {
      var parent: nat :| WasCreated(es, id, parent, x);
      CreatedStays(es, e, id, parent, x);
    }
  }

  /** What an event writes down of the tasks: at most one more is created, and at most one more ends. */
  lemma Noted(s: System, e: Event)
    requires Sound(s) && Allowed(s, e)
    ensures var s' := Next(s, e);
      && s'.parents == (if e == Create then s.parents[s.nextId := s.ring[0].id] else s.parents)
      && match e
         case Exit(code) => s'.exits == s.exits[s.ring[0].id := code]
         case Terminate(d, code) => s'.exits == s.exits || (s'.exits == s.exits[d := code] && At(s.ring, d).Some?)
         case _ => s'.exits == s.exits
  {
    assert |s.ring| >= 1;
    hide Sound, Allowed, Switched, UnblockedParent, At, HasChild, ZombieChild;
    if e.Terminate? {
      var j := Find(s.ring, e.id, 1);
      if j < |s.ring| { InRing(s, s.ring[j]); }
    }
  }

  lemma ToldMore(es: seq<Event>, e: Event)
    requires AllAllowed(Booted(), es + [e]) && AllAllowed(Booted(), es) && Told(es)
    ensures Told(es + [e])
  {
    var s, all := After(Booted(), es), es + [e];
    AfterLast(Booted(), es, e);
    BootedSound();
    RunSound(Booted(), es);
    Noted(s, e);
    assert all[..|es|] == es && all[|es|] == e;
    assert Then(all, |es|) == s;
    var s' := After(Booted(), all);
    hide Next, Allowed, AllAllowed, After, Then;
    forall id: nat | id in s'.parents
      ensures WasCreated(all, id, s'.parents[id], |all|)
    {
      if e == Create && id == s.nextId { assert CreatedAt(all, |es|, id, s.ring[0].id); }
      else { CreatedStays(es, e, id, s.parents[id], |es|); }
    }
    forall id: nat | id in s'.exits
      ensures HasEnded(all, id, s'.exits[id], id in s'.parents)
    {
      if id in s.exits && s'.exits[id] == s.exits[id] {
        assert id < s.nextId by { ExitsBelow(s, id); }
        EndedStays(es, e, id, s.exits[id], id in s.parents);
      } else {
        assert EndedAt(all, |es|, id, s'.exits[id]);
        if id in s.parents { CreatedStays(es, e, id, s.parents[id], |es|); }
      }
    }
  }

  lemma ExitsBelow(s: System, id: nat)
    requires Sound(s) && id in s.exits
    ensures id < s.nextId
  {
  }

  lemma {:induction false} AllTold(es: seq<Event>)
    requires AllAllowed(Booted(), es)
    ensures Told(es)
    decreases |es|
  {
    if es != [] {
      var n := |es| - 1;
      assert es == es[..n] + [es[n]];
      AfterLast(Booted(), es[..n], es[n]);
      AllTold(es[..n]);
      ToldMore(es[..n], es[n]);
    }
  }

  /** The story of a reaped task: it was created by its parent, later it ended with a code, by its own call of exit or by
      another's, and later still its parent, in a wait call, got that code. */
  ghost predicate Story(es: seq<Event>, r: Reaping) {
    exists c: nat, x: nat, w: nat ::
      c < x < w && CreatedAt(es, c, r.pid, r.parent) && EndedAt(es, x, r.pid, r.code) && ReapedAt(es, w, r.pid, r.parent)
  }

  lemma StoryStays(es: seq<Event>, e: Event, r: Reaping)
    requires Story(es, r)
    ensures Story(es + [e], r)
  {
    StaysTold(es, e);
    var c: nat, x: nat, w: nat :|
      c < x < w && CreatedAt(es, c, r.pid, r.parent) && EndedAt(es, x, r.pid, r.code) && ReapedAt(es, w, r.pid, r.parent);
    assert (es + [e])[..w] == es[..w];
    hide CreatedAt, EndedAt;
    assert CreatedAt(es + [e], c, r.pid, r.parent) && EndedAt(es + [e], x, r.pid, r.code) && ReapedAt(es + [e], w, r.pid, r.parent);
  }

  /** An event adds at most one reaping, in a wait call. */
  lemma ReapedOnce(s: System, e: Event)
    requires Sound(s) && Allowed(s, e)
    ensures var s' := Next(s, e);
      s'.reaped == s.reaped ||
      (|s'.reaped| == |s.reaped| + 1 && s'.reaped[..|s.reaped|] == s.reaped && var r := s'.reaped[|s.reaped|];
       r.parent == s.ring[0].id && (e == WaitAny || e == WaitFor(r.pid)))
  {
    hide Sound, Allowed, Switched, UnblockedParent, At;
  }

  /** A creator is unique: whoever is written down as the parent has made the creating call. */
  lemma OneCreator(es: seq<Event>, id: nat, p: nat, q: nat, n: nat, m: nat)
    requires CreatedAt(es, n, id, p) && CreatedAt(es, m, id, q)
    ensures n == m && p == q
  {
    if n < m { IdsGrow(es, n, m); }
    if m < n { IdsGrow(es, m, n); }
  }

  lemma {:induction false} IdsGrow(es: seq<Event>, n: nat, m: nat)
    requires n < m <= |es| && es[n] == Create
    ensures Then(es, n).nextId < Then(es, m).nextId
    decreases m
  {
    assert es[..m] == es[..m - 1] + [es[m - 1]];
    AfterLast(Booted(), es[..m - 1], es[m - 1]);
    NextIdGrows(Then(es, m - 1), es[m - 1]);
    if n < m - 1 { IdsGrow(es, n, m - 1); }
  }

  lemma NextIdGrows(s: System, e: Event)
    requires s.ring != []
    ensures Next(s, e).nextId >= s.nextId && (e == Create ==> Next(s, e).nextId > s.nextId)
  {
    hide Switched, UnblockedParent;
  }

  /** Every reaping of every run from boot has its story. */
  lemma {:induction false} Stories(es: seq<Event>)
    requires AllAllowed(Booted(), es)
    ensures forall r <- After(Booted(), es).reaped :: Story(es, r)
    decreases |es|
  {
    if es != [] {
      var n := |es| - 1;
      var before, e := es[..n], es[n];
      assert es == before + [e];
      AfterLast(Booted(), before, e);
      Stories(before);
      StoryMore(before, e);
    }
  }

  lemma StoryMore(es: seq<Event>, e: Event)
    requires AllAllowed(Booted(), es + [e]) && AllAllowed(Booted(), es)
    requires forall r <- After(Booted(), es).reaped :: Story(es, r)
    ensures forall r <- After(Booted(), es + [e]).reaped :: Story(es + [e], r)
  {
    hide Next, Allowed, AllAllowed, After, Then, Story, Sound;
    var s, all := After(Booted(), es), es + [e];
    var s' := After(Booted(), all);
    AfterLast(Booted(), es, e);
    BootedSound();
    RunSound(Booted(), es);
    RunSound(Booted(), all);
    ReapedOnce(s, e);
    AllTold(es);
    forall r <- s'.reaped
      ensures Story(all, r)
    {
      if r in s.reaped { StoryStays(es, e, r); }
      else {
        assert r == s'.reaped[|s.reaped|];
        WrittenDown(s', r);
        Noted(s, e);
        LastEvent(es, e);
        StoryTold(es, e, r);
      }
    }
  }

  lemma LastEvent(es: seq<Event>, e: Event)
    ensures (es + [e])[|es|] == e && Then(es + [e], |es|) == After(Booted(), es)
  {
    assert (es + [e])[..|es|] == es;
  }

  lemma WrittenDown(s: System, r: Reaping)
    requires Sound(s) && r in s.reaped
    ensures r.pid in s.exits && r.code == s.exits[r.pid] && r.pid in s.parents && r.parent == s.parents[r.pid]
  {
  }

  lemma StoryTold(es: seq<Event>, e: Event, r: Reaping)
    requires Told(es) && ReapedAt(es + [e], |es|, r.pid, r.parent)
    requires var s := After(Booted(), es);
      r.pid in s.exits && s.exits[r.pid] == r.code && r.pid in s.parents && s.parents[r.pid] == r.parent
    ensures Story(es + [e], r)
  {
    hide CreatedAt, EndedAt, After;
    var x: nat :| EndedAt(es, x, r.pid, r.code) && exists parent: nat :: WasCreated(es, r.pid, parent, x);
    var parent: nat :| WasCreated(es, r.pid, parent, x);
    var c: nat :| c < x && CreatedAt(es, c, r.pid, parent);
    assert WasCreated(es, r.pid, r.parent, |es|);
    var c': nat :| c' < |es| && CreatedAt(es, c', r.pid, r.parent);
    OneCreator(es, r.pid, parent, r.parent, c, c');
    StaysTold(es, e);
    EndedBefore(es, x, r.pid, r.code);
    assert CreatedAt(es + [e], c, r.pid, r.parent) && EndedAt(es + [e], x, r.pid, r.code);
  }

  lemma EndedBefore(es: seq<Event>, x: nat, pid: nat, code: int)
    requires EndedAt(es, x, pid, code)
    ensures x < |es|
  {
  }
}
