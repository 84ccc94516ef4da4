/** When tasks that count under a mutex get on: they can always finish, and no run is stuck in which no wake-up is lost; and one
    that is stuck because a wake-up is lost. */
module MutexProgress {
  import opened Options
  import opened Mutexes

  // ---------------------------------------------------------------- a run that finishes

  /** Nobody inside, nobody asleep, nobody leaving. */
  ghost predicate Quiet(s: System) {
    && s.mutex == Mutex(false, [])
    && forall i :: 0 <= i < |s.workers| ==> s.workers[i].place == if s.workers[i].todo > 0 then Locking else Finished
  }

  /** A task counts once: it takes the mutex, reads, writes, gives the mutex back and wakes nobody. */
  lemma OneRound(s: System, t: nat)
    requires Quiet(s) && t < |s.workers| && s.workers[t].todo > 0
    ensures var w := s.workers[t]; var es := seq(5, _ => Step(t));
      && var s' := After(s, es);
      && s'.counter == s.counter + 1 && s'.mutex == s.mutex
      && s'.workers == s.workers[t := Worker(if w.todo == 1 then Finished else Locking, w.todo - 1, w.done + 1)]
  {
    var w := s.workers[t];
    var s1 := s.(mutex := Mutex(true, []), workers := s.workers[t := w.(place := Entered)]);
    var s2 := s1.(workers := s.workers[t := w.(place := Holding(s.counter))]);
    var s3 := s2.(counter := s.counter + 1, workers := s.workers[t := w.(place := Wrote)]);
    var s4 := s3.(mutex := Mutex(false, []), workers := s.workers[t := Worker(Leaving(None), w.todo - 1, w.done + 1)]);
    assert w.place == Locking;
    assert Next(s, Step(t)) == s1;
    assert Next(s1, Step(t)) == s2;
    assert Next(s2, Step(t)) == s3;
    assert Next(s3, Step(t)) == s4;
    var s5 := Next(s4, Step(t));
    FiveSteps(s, t, s1, s2, s3, s4);
  }

  lemma FiveSteps(s: System, t: nat, s1: System, s2: System, s3: System, s4: System)
    requires Next(s, Step(t)) == s1 && Next(s1, Step(t)) == s2 && Next(s2, Step(t)) == s3 && Next(s3, Step(t)) == s4
    ensures After(s, seq(5, _ => Step(t))) == Next(s4, Step(t))
  {
    hide Next;
    Repeated(s, t, 5);
    Repeated(s1, t, 4);
    Repeated(s2, t, 3);
    Repeated(s3, t, 2);
    Repeated(s4, t, 1);
  }

  lemma Repeated(s: System, t: nat, n: nat)
    requires n > 0
    ensures After(s, seq(n, _ => Step(t))) == After(Next(s, Step(t)), seq(n - 1, _ => Step(t)))
    ensures n == 1 ==> After(s, seq(n, _ => Step(t))) == Next(s, Step(t))
  {
    hide Next;
    var es := seq(n, _ => Step(t));
    assert es[0] == Step(t) && es[1..] == seq(n - 1, _ => Step(t));
  }

  lemma {:induction false} AfterBoth(s: System, es: seq<Event>, fs: seq<Event>)
    ensures After(s, es + fs) == After(After(s, es), fs)
    decreases |es|
  {
    hide Next;
    if es == [] { assert es + fs == fs; }
    else {
      assert (es + fs)[1..] == es[1..] + fs;
      AfterBoth(Next(s, es[0]), es[1..], fs);
    }
  }

  function ToDo(ws: seq<Worker>): nat { if ws == [] then 0 else ToDo(ws[..|ws| - 1]) + ws[|ws| - 1].todo }

  lemma {:induction false} ToDoSet(ws: seq<Worker>, t: nat, w: Worker)
    requires t < |ws|
    ensures ToDo(ws[t := w]) + ws[t].todo == ToDo(ws) + w.todo
  {
    var last := |ws| - 1;
    if t < last {
      ToDoSet(ws[..last], t, w);
      assert ws[t := w][..last] == ws[..last][t := w];
    } else {
      assert ws[t := w][..last] == ws[..last];
    }
  }

  /** However often the tasks have to count, there is a run after which all have finished and each has counted that often. */
  lemma {:induction false} CanFinish(s: System) returns (es: seq<Event>)
    requires Quiet(s)
    ensures var s' := After(s, es);
      && |s'.workers| == |s.workers|
      && forall i :: 0 <= i < |s.workers| ==> s'.workers[i] == Worker(Finished, 0, s.workers[i].done + s.workers[i].todo)
    decreases ToDo(s.workers)
  {
    if t: nat :| t < |s.workers| && s.workers[t].todo > 0 {
      var round := seq(5, _ => Step(t));
      OneRound(s, t);
      var s' := After(s, round);
      ToDoSet(s.workers, t, s'.workers[t]);
      var rest := CanFinish(s');
      AfterBoth(s, round, rest);
      es := round + rest;
    } else {
      es := [];
    }
  }

  // ---------------------------------------------------------------- runs that are not stuck

  /** A wake-up is lost: a task goes to sleep that there is no room to put down, or one is woken that is not asleep. */
  predicate Loses(s: System, e: Event) {
    && e.Step? && e.t < |s.workers|
    && match s.workers[e.t].place
       case Locking => s.mutex.locked && |s.mutex.waiters| >= 16
       case Leaving(Some(u)) => u < |s.workers| && s.workers[u].place != Asleep
       case _ => false
  }

  predicate KeepsAll(s: System, es: seq<Event>)
    decreases |es|
  {
    es == [] || (!Loses(s, es[0]) && KeepsAll(Next(s, es[0]), es[1..]))
  }

  /** Somebody will wake the task. */
  ghost predicate Expected(s: System, t: nat) {
    t in s.mutex.waiters || exists u :: 0 <= u < |s.workers| && s.workers[u].place == Leaving(Some(t))
  }

  predicate Coming(w: Worker) { w.place == Locking || (w.place.Leaving? && w.place.wake.Some?) }

  /** Whoever sleeps is expected to be woken, and while somebody waits for a free mutex somebody is about to take it. */
  ghost predicate Awaited(s: System) {
    && (forall t <- s.mutex.waiters :: t < |s.workers|)
    && (forall u :: 0 <= u < |s.workers| && s.workers[u].place.Leaving? && s.workers[u].place.wake.Some? ==>
          s.workers[u].place.wake.value < |s.workers|)
    && (forall t :: 0 <= t < |s.workers| && (s.workers[t].place == Dozing || s.workers[t].place == Asleep) ==> Expected(s, t))
    && (s.mutex.waiters != [] && !s.mutex.locked ==> exists u :: 0 <= u < |s.workers| && Coming(s.workers[u]))
  }

  /** One task has gone on, and the queue has at most grown; nobody who was about to take the mutex is gone, or it is taken. */
  lemma AwaitedOne(s: System, t: nat, w: Worker, mutex: Mutex, counter: int)
    requires Awaited(s) && t < |s.workers|
    requires mutex.waiters == s.mutex.waiters || mutex.waiters == s.mutex.waiters + [t]
    requires !s.workers[t].place.Leaving? && !w.place.Leaving?
    requires w.place == Dozing || w.place == Asleep ==> t in mutex.waiters || s.workers[t].place == Dozing
    requires mutex.locked || (!s.mutex.locked && mutex.waiters == s.mutex.waiters && (Coming(s.workers[t]) ==> Coming(w)))
    ensures Awaited(System(mutex, counter, s.workers[t := w]))
  {
    var s' := System(mutex, counter, s.workers[t := w]);
    forall i | 0 <= i < |s.workers| && (s'.workers[i].place == Dozing || s'.workers[i].place == Asleep)
      ensures Expected(s', i)
    {
      if i != t || t !in mutex.waiters {
        assert Expected(s, i);
        if u :| 0 <= u < |s.workers| && s.workers[u].place == Leaving(Some(i)) { assert s'.workers[u].place == Leaving(Some(i)); }
      }
    }
    if s'.mutex.waiters != [] && !mutex.locked {
      var u :| 0 <= u < |s.workers| && Coming(s.workers[u]);
      assert Coming(s'.workers[u]);
    }
  }

  /** The mutex given back: the first in the queue is the one to wake. */
  lemma AwaitedRelease(s: System, t: nat, w: Worker)
    requires Awaited(s) && t < |s.workers| && s.workers[t].place == Wrote && w.place == Leaving(Release(s.mutex).1)
    ensures Awaited(System(Release(s.mutex).0, s.counter, s.workers[t := w]))
  {
    var s' := System(Release(s.mutex).0, s.counter, s.workers[t := w]);
    forall i | 0 <= i < |s.workers| && (s'.workers[i].place == Dozing || s'.workers[i].place == Asleep)
      ensures Expected(s', i)
    {
      assert Expected(s, i);
      if i in s.mutex.waiters {
        if i == s.mutex.waiters[0] { assert s'.workers[t].place == Leaving(Some(i)); }
        else { assert s.mutex.waiters == [s.mutex.waiters[0]] + s.mutex.waiters[1..]; }
      } else {
        var u :| 0 <= u < |s.workers| && s.workers[u].place == Leaving(Some(i));
        assert s'.workers[u].place == Leaving(Some(i));
      }
    }
    if s.mutex.waiters != [] {
      assert s.mutex.waiters[0] in s.mutex.waiters && forall x <- s.mutex.waiters[1..] :: x in s.mutex.waiters;
      assert Coming(s'.workers[t]);
    }
  }

  lemma AwaitedRouse(s: System, t: nat)
    requires Awaited(s)
    ensures Awaited(s.(workers := RouseAt(s.workers, t)))
  {
    var s' := s.(workers := RouseAt(s.workers, t));
    forall i | 0 <= i < |s.workers| && (s'.workers[i].place == Dozing || s'.workers[i].place == Asleep)
      ensures Expected(s', i)
    {
      assert Expected(s, i);
      if u :| 0 <= u < |s.workers| && s.workers[u].place == Leaving(Some(i)) { assert s'.workers[u].place == Leaving(Some(i)); }
    }
    if s.mutex.waiters != [] && !s.mutex.locked {
      var u :| 0 <= u < |s.workers| && Coming(s.workers[u]);
      assert Coming(s'.workers[u]);
    }
  }

  /** A task leaves and wakes another, which is asleep. */
  lemma AwaitedLeave(s: System, t: nat)
    requires Awaited(s) && t < |s.workers| && s.workers[t].place.Leaving? && !Loses(s, Step(t))
    ensures Awaited(Next(s, Step(t)))
  {
    var s', w, wake := Next(s, Step(t)), s.workers[t], s.workers[t].place.wake;
    assert wake.Some? ==> wake.value != t && s'.workers[wake.value].place == Locking;
    forall i | 0 <= i < |s.workers| && (s'.workers[i].place == Dozing || s'.workers[i].place == Asleep)
      ensures Expected(s', i)
    {
      assert s'.workers[i] == s.workers[i];
      assert Expected(s, i);
      if u :| 0 <= u < |s.workers| && s.workers[u].place == Leaving(Some(i)) { assert s'.workers[u].place == Leaving(Some(i)); }
    }
    if s.mutex.waiters != [] && !s.mutex.locked {
      var u :| 0 <= u < |s.workers| && Coming(s.workers[u]);
      assert Coming(s'.workers[if wake.Some? then wake.value else u]);
    }
  }

  lemma AwaitedNext(s: System, e: Event)
    requires Awaited(s) && !Loses(s, e)
    ensures Awaited(Next(s, e))
  {
    if e.t < |s.workers| {
      var s', w := Next(s, e), s.workers[e.t];
      if e.Wake? { AwaitedRouse(s, e.t); }
      else if e.Step? && w.place.Leaving? { AwaitedLeave(s, e.t); }
      else if e.Step? && w.place == Wrote { AwaitedRelease(s, e.t, s'.workers[e.t]); }
      else {
        assert s'.workers == s.workers[e.t := s'.workers[e.t]];
        if e.Step? && w.place == Locking && s.mutex.locked { assert e.t in s'.mutex.waiters; }
        if s' != s { AwaitedOne(s, e.t, s'.workers[e.t], s'.mutex, s'.counter); }
      }
    }
  }

  lemma {:induction false} AwaitedAfter(s: System, es: seq<Event>)
    requires Awaited(s) && KeepsAll(s, es)
    ensures Awaited(After(s, es))
    decreases |es|
  {
    hide Awaited, Next, Loses;
    if es != [] {
      AwaitedNext(s, es[0]);
      AwaitedAfter(Next(s, es[0]), es[1..]);
    }
  }

  /** As long as no wake-up is lost, no run is stuck: while not all have finished, somebody is awake to go on. */
  lemma NeverStuck(s: System, es: seq<Event>)
    requires Starting(s) && KeepsAll(s, es)
    ensures var ws := After(s, es).workers;
      (forall w <- ws :: w.place == Finished) || (exists w <- ws :: w.place != Asleep && w.place != Finished)
  {
    forall i | 0 <= i < |s.workers| ensures s.workers[i].place == Locking && !Inside(s.workers[i]) { assert s.workers[i] in s.workers; }
    AwaitedAfter(s, es);
    NothingCompleted(s.workers);
    var owner := RunSound(s, es, None);
    hide After;
    var s' := After(s, es);
    if forall w <- s'.workers :: w.place == Asleep || w.place == Finished {
      forall u | 0 <= u < |s'.workers| ensures s'.workers[u].place == Asleep || s'.workers[u].place == Finished {
        assert s'.workers[u] in s'.workers;
      }
      NobodyAsleep(s', owner);
    }
  }

  lemma NobodyAsleep(s: System, owner: Option<nat>)
    requires Awaited(s) && Sound(s, owner) && forall u :: 0 <= u < |s.workers| ==> s.workers[u].place == Asleep || s.workers[u].place == Finished
    ensures forall w <- s.workers :: w.place == Finished
  {
    assert !s.mutex.locked;
    assert s.mutex.waiters == [];
    assert forall i :: 0 <= i < |s.workers| ==> !Expected(s, i);
  }

  // ---------------------------------------------------------------- a wake-up that is lost

  function Twice(a: Place, b: Place, done: nat): seq<Worker>
    requires done <= 1
  {
    [Worker(a, 1 - done, done), Worker(b, 1, 0)]
  }

  function LosingRun(): seq<Event> { [Step(0), Step(1), Step(0), Step(0), Step(0), Step(0), Step(1)] }

  lemma LosingSteps(s: System)
    requires s == System(Mutex(false, []), 0, Twice(Locking, Locking, 0))
    ensures var s' := System(Mutex(false, []), 1, Twice(Finished, Asleep, 1));
      After(s, LosingRun()) == s' && forall t: nat :: Next(s', Step(t)) == s'
  {
    var s1 := System(Mutex(true, []), 0, Twice(Entered, Locking, 0));
    var s2 := System(Mutex(true, [1]), 0, Twice(Entered, Dozing, 0));
    var s3 := System(Mutex(true, [1]), 0, Twice(Holding(0), Dozing, 0));
    var s4 := System(Mutex(true, [1]), 1, Twice(Wrote, Dozing, 0));
    var s5 := System(Mutex(false, []), 1, Twice(Leaving(Some(1)), Dozing, 1));
    var s6 := System(Mutex(false, []), 1, Twice(Finished, Dozing, 1));
    var s7 := System(Mutex(false, []), 1, Twice(Finished, Asleep, 1));
    assert Next(s, Step(0)) == s1;
    assert Next(s1, Step(1)) == s2;
    assert Next(s2, Step(0)) == s3;
    assert Next(s3, Step(0)) == s4;
    assert Next(s4, Step(0)) == s5;
    assert Next(s5, Step(0)) == s6;
    assert Next(s6, Step(1)) == s7;
    hide Next;
    var es := LosingRun();
    assert After(s, es) == After(s1, es[1..]) == After(s2, es[1..][1..]) == After(s3, es[1..][1..][1..]);
    var fs := es[1..][1..][1..];
    assert fs == [Step(0), Step(0), Step(0), Step(1)];
    assert After(s3, fs) == After(s4, fs[1..]) == After(s5, fs[1..][1..]) == After(s6, fs[1..][1..][1..]);
    assert fs[1..][1..][1..] == [Step(1)];
    assert After(s6, [Step(1)]) == After(s7, []);
  }

  /** Two tasks, each to count once. The second finds the mutex held and is put down to be woken; before it sleeps the first gives
      the mutex back and wakes it, to no effect; then it sleeps. The mutex is free, and nobody goes on. */
  method LostWakeUp() returns (test: CountingTest)
    ensures test.Valid() && test.workers.Length == 2 && test.workers[0].place == Finished && test.workers[1].place == Asleep
    ensures test.Now().mutex == Mutex(false, []) && test.counter == 1
    ensures forall t: nat :: Next(test.Now(), Step(t)) == test.Now()
  {
    test := new CountingTest([1, 1]);
    assert test.workers[..] == [test.workers[0], test.workers[1]];
    LosingSteps(test.Now());
    assert test.Now().workers == Twice(Locking, Locking, 0);
    hide After, Next;
    test.Run(LosingRun());
    assert test.Now().workers == Twice(Finished, Asleep, 1);
    assert test.workers[..] == [test.workers[0], test.workers[1]];
  }
}
