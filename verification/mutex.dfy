/** The blocking mutex of kernel/mutex.c, and the counter that kernel/shell.c:219-232 guards with it, under
    every interleaving. A step is one spinlocked section, or one read or write of the counter. */
module Mutexes {
  import opened Options

  const MAX_WAITERS := 16

  // ---------------------------------------------------------------- the mutex

  /** Whether it is held, and who asked to be woken, in order. */
  datatype Mutex = Mutex(locked: bool, waiters: seq<nat>)

  /** The guarded section of mutex_lock: taken, or the task is put down to be woken if there is room. */
  function Acquire(m: Mutex, t: nat): (Mutex, bool) {
    if !m.locked then (m.(locked := true), true)
    else if |m.waiters| < MAX_WAITERS then (m.(waiters := m.waiters + [t]), false)
    else (m, false)
  }

  function TryAcquire(m: Mutex): (Mutex, bool) { (m.(locked := true), !m.locked) }

  /** The guarded section of mutex_unlock, and whom to wake. */
  function Release(m: Mutex): (Mutex, Option<nat>) {
    if m.waiters == [] then (m.(locked := false), None) else (Mutex(false, m.waiters[1..]), Some(m.waiters[0]))
  }

  class MutexRecord {
    var locked: bool
    const waiters: array<nat>
    var waiterCount: nat

    ghost predicate Valid()
      reads this
    {
      waiters.Length == MAX_WAITERS && waiterCount <= MAX_WAITERS
    }

    ghost function Now(): Mutex
      reads this, waiters
      requires Valid()
    {
      Mutex(locked, waiters[..waiterCount])
    }

    /** mutex_init. */
    constructor ()
      ensures Valid() && Now() == Mutex(false, []) && fresh(waiters)
    {
      locked, waiterCount := false, 0;
      waiters := new nat[MAX_WAITERS];
    }

    method LockSection(t: nat) returns (got: bool)
      requires Valid()
      modifies this, waiters
      ensures Valid() && (Now(), got) == Acquire(old(Now()), t)
      ensures locked && (got <==> !old(locked))
      ensures waiters[..waiterCount] == old(waiters[..waiterCount]) + if !got && old(waiterCount) < 16 then [t] else []
    {
      if !locked {
        locked := true;
        return true;
      }
      if waiterCount < MAX_WAITERS {
        waiters[waiterCount] := t;
        waiterCount := waiterCount + 1;
        assert waiters[..waiterCount] == old(waiters[..waiterCount]) + [t];
      }
      return false;
    }

    /** mutex_try_lock. */
    method TryLock() returns (got: bool)
      requires Valid()
      modifies `locked
      ensures Valid() && (Now(), got) == TryAcquire(old(Now())) && locked && (got <==> !old(locked))
    {
      got := false;
      if !locked {
        locked := true;
        got := true;
      }
    }

    /** The guarded section of mutex_unlock. The queue moves up in place. */
    method UnlockSection() returns (wake: Option<nat>)
      requires Valid()
      modifies this, waiters
      ensures Valid() && (Now(), wake) == Release(old(Now())) && !locked
      ensures old(waiterCount) == 0 ==> wake == None && waiterCount == 0
      ensures old(waiterCount) > 0 ==> wake == Some(old(waiters[0])) && waiters[..waiterCount] == old(waiters[..waiterCount])[1..]
    {
      ghost var queue := waiters[..waiterCount];
      locked := false;
      wake := None;
      if waiterCount > 0 {
        wake := Some(waiters[0]);
        for i := 1 to waiterCount
          invariant waiterCount == old(waiterCount) && !locked
          invariant waiters[..i - 1] == queue[1..i] && waiters[i..waiterCount] == queue[i..]
        {
          waiters[i - 1] := waiters[i];
          assert waiters[..i] == waiters[..i - 1] + [queue[i]];
          assert queue[1..i + 1] == queue[1..i] + [queue[i]];
        }
        waiterCount := waiterCount - 1;
        assert waiters[..waiterCount] == queue[1..];
      }
    }
  }

  // ---------------------------------------------------------------- tasks that count

  /** Where a task is in its loop. */
  datatype Place =
    | Locking              // about to take the mutex
    | Dozing               // found it held, not yet asleep
    | Asleep
    | Entered              // has the mutex
    | Holding(tmp: int)    // has read the counter
    | Wrote                // has written it back
    | Leaving(wake: Option<nat>)
    | Finished

  /** A task, how often it has still to count, and how often it has counted. */
  datatype Worker = Worker(place: Place, todo: nat, done: nat)

  datatype System = System(mutex: Mutex, counter: int, workers: seq<Worker>)

  datatype Event = Step(t: nat) | TryLock(t: nat) | Wake(t: nat)

  predicate Inside(w: Worker) { w.place.Entered? || w.place.Holding? || w.place.Wrote? }

  function Resume(w: Worker): Worker { w.(place := if w.todo == 0 then Finished else Locking) }

  /** task_unblock: only a task asleep notices. */
  function Roused(w: Worker): Worker { if w.place == Asleep then w.(place := Locking) else w }

  function RouseAt(ws: seq<Worker>, t: nat): seq<Worker> { if t < |ws| then ws[t := Roused(ws[t])] else ws }

  function Next(s: System, e: Event): System {
    if e.t >= |s.workers| then s
    else
      var w := s.workers[e.t];
      match e
      case Wake(t) => s.(workers := RouseAt(s.workers, t))
      case TryLock(t) =>
        if w.place != Locking then s
        else
          var (m, got) := TryAcquire(s.mutex);
          s.(mutex := m, workers := s.workers[t := if got then w.(place := Entered) else w])
      case Step(t) =>
        match w.place
        case Locking =>
          var (m, got) := Acquire(s.mutex, t);
          s.(mutex := m, workers := s.workers[t := w.(place := if got then Entered else Dozing)])
        case Dozing => s.(workers := s.workers[t := w.(place := Asleep)])
        case Asleep => s
        case Entered => s.(workers := s.workers[t := w.(place := Holding(s.counter))])
        case Holding(tmp) => s.(counter := tmp + 1, workers := s.workers[t := w.(place := Wrote)])
        case Wrote =>
          var (m, wake) := Release(s.mutex);
          s.(mutex := m, workers := s.workers[t := Worker(Leaving(wake), if w.todo > 0 then w.todo - 1 else 0, w.done + 1)])
        case Leaving(wake) =>
          var ws := s.workers[t := Resume(w)];
          s.(workers := match wake case None => ws case Some(u) => RouseAt(ws, u))
        case Finished => s
  }

  function After(s: System, es: seq<Event>): System
    decreases |es|
  {
    if es == [] then s else After(Next(s, es[0]), es[1..])
  }

  /** The number of increments completed. */
  function Completed(ws: seq<Worker>): nat { if ws == [] then 0 else Completed(ws[..|ws| - 1]) + ws[|ws| - 1].done }

  lemma {:induction false} CompletedSet(ws: seq<Worker>, t: nat, w: Worker)
    requires t < |ws|
    ensures Completed(ws[t := w]) + ws[t].done == Completed(ws) + w.done
  {
    var last := |ws| - 1;
    if t < last {
      CompletedSet(ws[..last], t, w);
      assert ws[t := w][..last] == ws[..last][t := w];
    } else {
      assert ws[t := w][..last] == ws[..last];
    }
  }

  // ---------------------------------------------------------------- what every step keeps

  /** The owner, if any, is the one task inside; what it has read is still the counter; and the counter is
      the increments completed, with the one written back but not yet let go of. */
  ghost predicate Sound(s: System, owner: Option<nat>) {
    && (s.mutex.locked <==> owner.Some?)
    && (owner.Some? ==> owner.value < |s.workers|)
    && (forall i :: 0 <= i < |s.workers| ==> (Inside(s.workers[i]) <==> owner == Some(i)))
    && (forall i :: 0 <= i < |s.workers| && s.workers[i].place.Holding? ==> s.workers[i].place.tmp == s.counter)
    && s.counter == Completed(s.workers) + if owner.Some? && s.workers[owner.value].place.Wrote? then 1 else 0
  }

  lemma RouseSound(s: System, t: nat, owner: Option<nat>)
    requires Sound(s, owner)
    ensures Sound(s.(workers := RouseAt(s.workers, t)), owner)
  {
    if t < |s.workers| { CompletedSet(s.workers, t, Roused(s.workers[t])); }
  }

  /** One task replaced, with the mutex and the counter as that task leaves them. */
  lemma OneSound(s: System, t: nat, w: Worker, mutex: Mutex, counter: int, owner: Option<nat>, owner': Option<nat>)
    requires Sound(s, owner) && t < |s.workers|
    requires owner' == (if Inside(w) then Some(t) else if Inside(s.workers[t]) then None else owner)
    requires Inside(w) && !Inside(s.workers[t]) ==> !s.mutex.locked
    requires mutex.locked <==> owner'.Some?
    requires w.place.Holding? ==> w.place.tmp == counter
    requires counter != s.counter ==> Inside(w) && Inside(s.workers[t])
    requires counter + s.workers[t].done + (if s.workers[t].place.Wrote? then 1 else 0) == s.counter + w.done + if w.place.Wrote? then 1 else 0
    ensures Sound(System(mutex, counter, s.workers[t := w]), owner')
  {
    CompletedSet(s.workers, t, w);
    hide Completed;
  }

  lemma NextSound(s: System, e: Event, owner: Option<nat>) returns (owner': Option<nat>)
    requires Sound(s, owner)
    ensures Sound(Next(s, e), owner')
  {
    owner' := owner;
    if e.t < |s.workers| {
      var s' := Next(s, e);
      var w := s.workers[e.t];
      if e.Wake? {
        RouseSound(s, e.t, owner);
      } else if e.Step? && w.place.Leaving? {
        OneSound(s, e.t, Resume(w), s.mutex, s.counter, owner, owner);
        if w.place.wake.Some? { RouseSound(s.(workers := s.workers[e.t := Resume(w)]), w.place.wake.value, owner); }
      } else {
        assert s'.workers == s.workers[e.t := s'.workers[e.t]];
        owner' := if Inside(s'.workers[e.t]) then Some(e.t) else if Inside(w) then None else owner;
        StepFacts(s, e, owner, owner');
        OneSound(s, e.t, s'.workers[e.t], s'.mutex, s'.counter, owner, owner');
      }
    }
  }

  lemma StepFacts(s: System, e: Event, owner: Option<nat>, owner': Option<nat>)
    requires Sound(s, owner) && e.t < |s.workers| && !e.Wake? && !(e.Step? && s.workers[e.t].place.Leaving?)
    requires e.t < |Next(s, e).workers|
    requires owner' == (if Inside(Next(s, e).workers[e.t]) then Some(e.t) else if Inside(s.workers[e.t]) then None else owner)
    ensures var s', w, w' := Next(s, e), s.workers[e.t], Next(s, e).workers[e.t];
      && (Inside(w') && !Inside(w) ==> !s.mutex.locked)
      && (s'.mutex.locked <==> owner'.Some?)
      && (w'.place.Holding? ==> w'.place.tmp == s'.counter)
      && (s'.counter != s.counter ==> Inside(w') && Inside(w))
      && s'.counter + w.done + (if w.place.Wrote? then 1 else 0) == s.counter + w'.done + if w'.place.Wrote? then 1 else 0
  {
  }

  lemma {:induction false} RunSound(s: System, es: seq<Event>, owner: Option<nat>) returns (owner': Option<nat>)
    requires Sound(s, owner)
    ensures Sound(After(s, es), owner')
    decreases |es|
  {
    owner' := owner;
    if es != [] {
      owner' := NextSound(s, es[0], owner);
      owner' := RunSound(Next(s, es[0]), es[1..], owner');
    }
  }

  /** Any number of tasks at the start of their loops, with any number of times to count. */
  predicate Starting(s: System) {
    && s.mutex == Mutex(false, []) && s.counter == 0
    && forall w <- s.workers :: w.place == Locking && w.done == 0
  }

  lemma {:induction false} NothingCompleted(ws: seq<Worker>)
    requires forall w <- ws :: w.done == 0
    ensures Completed(ws) == 0
  {
    if ws != [] {
      assert forall w <- ws[..|ws| - 1] :: w in ws;
      assert ws[|ws| - 1] in ws;
      NothingCompleted(ws[..|ws| - 1]);
    }
  }

  /** Mutual exclusion and no lost update, for any number of tasks, any interleaving, and any wake-ups. */
  lemma NoLostUpdates(s: System, es: seq<Event>)
    requires Starting(s)
    ensures var s' := After(s, es);
      && (forall i, j :: 0 <= i < |s'.workers| && 0 <= j < |s'.workers| && Inside(s'.workers[i]) && Inside(s'.workers[j]) ==> i == j)
      && ((forall w <- s'.workers :: !Inside(w)) ==> s'.counter == Completed(s'.workers))
  {
    NothingCompleted(s.workers);
    forall i | 0 <= i < |s.workers| ensures !Inside(s.workers[i]) && !s.workers[i].place.Holding? { assert s.workers[i] in s.workers; }
    var owner := RunSound(s, es, None);
    var s' := After(s, es);
    if owner.Some? { assert s'.workers[owner.value] in s'.workers; }
  }

  // ---------------------------------------------------------------- the test's total

  /** Increments still to do and done, together; a task inside has one of its own to do. */
  function Total(ws: seq<Worker>): nat { if ws == [] then 0 else Total(ws[..|ws| - 1]) + ws[|ws| - 1].todo + ws[|ws| - 1].done }

  lemma {:induction false} TotalSet(ws: seq<Worker>, t: nat, w: Worker)
    requires t < |ws|
    ensures Total(ws[t := w]) + ws[t].todo + ws[t].done == Total(ws) + w.todo + w.done
  {
    var last := |ws| - 1;
    if t < last {
      TotalSet(ws[..last], t, w);
      assert ws[t := w][..last] == ws[..last][t := w];
    } else {
      assert ws[t := w][..last] == ws[..last];
    }
  }

  /** A task at work still has something to do; one that has finished has not. */
  ghost predicate Busy(ws: seq<Worker>) {
    forall i :: 0 <= i < |ws| ==> BusyWorker(ws[i])
  }

  predicate BusyWorker(w: Worker) {
    (w.place == Finished ==> w.todo == 0) && (!w.place.Leaving? && w.place != Finished ==> w.todo > 0)
  }

  lemma OneTotal(ws: seq<Worker>, t: nat, w: Worker)
    requires Busy(ws) && t < |ws| && w.todo + w.done == ws[t].todo + ws[t].done && BusyWorker(w)
    ensures Busy(ws[t := w]) && Total(ws[t := w]) == Total(ws)
  {
    TotalSet(ws, t, w);
  }

  lemma TotalKept(s: System, e: Event)
    requires Busy(s.workers)
    ensures Busy(Next(s, e).workers) && Total(Next(s, e).workers) == Total(s.workers)
  {
    if e.t < |s.workers| {
      var w, ws := s.workers[e.t], Next(s, e).workers;
      assert BusyWorker(w);
      hide Busy, Total;
      if e.Step? && w.place.Leaving? {
        OneTotal(s.workers, e.t, Resume(w));
        var mid := s.workers[e.t := Resume(w)];
        if w.place.wake.Some? { RouseTotal(mid, w.place.wake.value); }
      } else if e.Wake? {
        RouseTotal(s.workers, e.t);
      } else {
        OneTotal(s.workers, e.t, ws[e.t]);
        assert ws == s.workers[e.t := ws[e.t]];
      }
    }
  }

  lemma RouseTotal(ws: seq<Worker>, t: nat)
    requires Busy(ws)
    ensures Busy(RouseAt(ws, t)) && Total(RouseAt(ws, t)) == Total(ws)
  {
    if t < |ws| {
      assert BusyWorker(ws[t]);
      OneTotal(ws, t, Roused(ws[t]));
    }
  }

  lemma {:induction false} TotalKeptAll(s: System, es: seq<Event>)
    requires Busy(s.workers)
    ensures Busy(After(s, es).workers) && Total(After(s, es).workers) == Total(s.workers)
    decreases |es|
  {
    if es != [] {
      TotalKept(s, es[0]);
      TotalKeptAll(Next(s, es[0]), es[1..]);
    }
  }

  lemma {:induction false} AllDone(ws: seq<Worker>)
    requires forall w <- ws :: w.todo == 0
    ensures Total(ws) == Completed(ws)
  {
    if ws != [] {
      assert forall w <- ws[..|ws| - 1] :: w in ws;
      assert ws[|ws| - 1] in ws;
      AllDone(ws[..|ws| - 1]);
    }
  }

  /** When every task has finished, the counter is the sum of all the times they had to count. */
  lemma ExactTotal(s: System, es: seq<Event>)
    requires Starting(s) && (forall w <- s.workers :: w.todo > 0)
    requires forall w <- After(s, es).workers :: w.place == Finished
    ensures After(s, es).counter == Total(s.workers)
  {
    forall i | 0 <= i < |s.workers| ensures s.workers[i].todo > 0 && s.workers[i].place == Locking { assert s.workers[i] in s.workers; }
    TotalKeptAll(s, es);
    NoLostUpdates(s, es);
    var ws := After(s, es).workers;
    forall w <- ws ensures w.todo == 0 { var i :| 0 <= i < |ws| && ws[i] == w; }
    AllDone(ws);
  }

  // ---------------------------------------------------------------- the test on the record

  /** The tasks of the test and the counter, around one mutex. */
  class CountingTest {
    const mutex: MutexRecord
    const workers: array<Worker>
    var counter: int

    ghost predicate Valid()
      reads this, mutex
    {
      mutex.Valid()
    }

    ghost function Now(): System
      reads this, mutex, mutex.waiters, workers
      requires Valid()
    {
      System(mutex.Now(), counter, workers[..])
    }

    /** As many tasks as there are numbers, each to count that often. */
    constructor (todo: seq<nat>)
      ensures Valid() && fresh(mutex) && fresh(mutex.waiters) && fresh(workers) && Starting(Now())
      ensures workers.Length == |todo| && forall i :: 0 <= i < |todo| ==> workers[i] == Worker(Locking, todo[i], 0)
    {
      var m := new MutexRecord();
      var ws := new Worker[|todo|](i requires 0 <= i < |todo| => Worker(Locking, todo[i], 0));
      mutex, workers, counter := m, ws, 0;
      new;
    }

    /** task_unblock of a task of the test. */
    method Rouse(t: nat)
      requires Valid()
      modifies workers
      ensures workers[..] == RouseAt(old(workers[..]), t)
    {
      if t < workers.Length { workers[t] := Roused(workers[t]); }
    }

    /** One step of a task that is at or inside the mutex. */
    method Advance(t: nat)
      requires Valid() && t < workers.Length
      modifies this, mutex, mutex.waiters, workers
      ensures Valid() && Now() == Next(old(Now()), Event.Step(t))
    {
      var w := workers[t];
      match w.place
      case Locking =>
        var got := mutex.LockSection(t);
        workers[t] := w.(place := if got then Entered else Dozing);
      case Dozing => workers[t] := w.(place := Asleep);
      case Asleep =>
      case Entered => workers[t] := w.(place := Holding(counter));
      case Holding(tmp) =>
        counter := tmp + 1;
        workers[t] := w.(place := Wrote);
      case Wrote =>
        var wake := mutex.UnlockSection();
        workers[t] := Worker(Leaving(wake), if w.todo > 0 then w.todo - 1 else 0, w.done + 1);
      case Leaving(wake) =>
        workers[t] := Resume(w);
        if wake.Some? { Rouse(wake.value); }
      case Finished =>
    }

    /** One step of one task, or a wake-up. */
    method Step(e: Event)
      requires Valid()
      modifies this, mutex, mutex.waiters, workers
      ensures Valid() && Now() == Next(old(Now()), e)
    {
      if e.t >= workers.Length { return; }
      match e
      case Wake(t) => Rouse(t);
      case TryLock(t) =>
        if workers[t].place == Locking {
          var got := mutex.TryLock();
          if got { workers[t] := workers[t].(place := Entered); }
        }
      case Step(t) => Advance(t);
    }

    method Run(es: seq<Event>)
      requires Valid()
      modifies this, mutex, mutex.waiters, workers
      ensures Valid() && Now() == After(old(Now()), es)
    {
      hide Next;
      for i := 0 to |es|
        invariant Valid() && After(Now(), es[i..]) == After(old(Now()), es)
      {
        assert es[i..][1..] == es[i + 1..];
        Step(es[i]);
      }
    }
  }

  /** The mutextest command, under any interleaving and any wake-ups: at no time are two tasks inside, and once all have
      finished the counter is the sum of what they had to count. */
  method CountUnderMutex(todo: seq<nat>, es: seq<Event>) returns (counter: int, workers: seq<Worker>)
    requires forall n <- todo :: n > 0
    ensures |workers| == |todo|
    ensures forall i, j :: 0 <= i < |workers| && 0 <= j < |workers| && Inside(workers[i]) && Inside(workers[j]) ==> i == j
    ensures (forall w <- workers :: w.place == Finished) ==> counter == Sum(todo)
  {
    var test := new CountingTest(todo);
    ghost var start := test.Now();
    test.Run(es);
    counter, workers := test.counter, test.workers[..];
    NoLostUpdates(start, es);
    if forall w <- workers :: w.place == Finished {
      forall w <- start.workers ensures w.todo > 0 { var i :| 0 <= i < |todo| && start.workers[i] == w; assert todo[i] in todo; }
      ExactTotal(start, es);
      TotalAtStart(start.workers, todo);
    }
  }

  function Sum(ns: seq<nat>): nat { if ns == [] then 0 else Sum(ns[..|ns| - 1]) + ns[|ns| - 1] }

  lemma {:induction false} TotalAtStart(ws: seq<Worker>, todo: seq<nat>)
    requires |ws| == |todo| && forall i :: 0 <= i < |ws| ==> ws[i] == Worker(Locking, todo[i], 0)
    ensures Total(ws) == Sum(todo)
  {
    if ws != [] { TotalAtStart(ws[..|ws| - 1], todo[..|todo| - 1]); }
  }
}
