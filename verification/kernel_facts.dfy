/** What programs find out over whole runs of calls: loads show what was last stored, and a wait for a child shows the code that the
    child exited with. */
module KernelFacts {
  import opened Options
  import Tasks
  import TaskEffects
  import opened PageTables
  import opened Accounting
  import opened Processes
  import opened EagerFacts
  import opened Kernel
  import Conservation

  // ---------------------------------------------------------------- states along a run

  lemma {:induction false} MatchedAt(trail: seq<State>, calls: seq<Call>, evs: seq<seq<Event>>, n: nat)
    requires Runs(trail, calls, evs) && Matched(trail[0]) && n <= |evs|
    ensures Matched(trail[n])
  {
    hide Matched, Calls;
    if n > 0 {
      MatchedAt(trail, calls, evs, n - 1);
      assert CallsAt(trail, calls, evs, n - 1);
      CallMatched(trail[n - 1], calls[n - 1], evs[n - 1], trail[n]);
    }
  }

  lemma {:induction false} NextGrows(trail: seq<State>, calls: seq<Call>, evs: seq<seq<Event>>, l: nat, j: nat)
    requires Runs(trail, calls, evs) && Matched(trail[0]) && l <= j <= |evs|
    ensures trail[l].memory.next <= trail[j].memory.next
    decreases j
  {
    hide Matched, Calls;
    if l < j {
      NextGrows(trail, calls, evs, l, j - 1);
      MatchedAt(trail, calls, evs, j - 1);
      assert CallsAt(trail, calls, evs, j - 1);
      CallOlder(trail[j - 1], calls[j - 1], evs[j - 1], trail[j], 0);
    }
  }

  /** A program that is there, and was not new since, was there all along. */
  lemma {:induction false} Present(trail: seq<State>, calls: seq<Call>, evs: seq<seq<Event>>, l: nat, j: nat, q: nat)
    requires Runs(trail, calls, evs) && Matched(trail[0]) && l <= j <= |evs| && q in trail[j].memory.dirs && q < trail[l].memory.next
    ensures q in trail[l].memory.dirs
    decreases j
  {
    hide Matched, Calls;
    if l < j {
      NextGrows(trail, calls, evs, l, j - 1);
      MatchedAt(trail, calls, evs, j - 1);
      assert CallsAt(trail, calls, evs, j - 1);
      CallOlder(trail[j - 1], calls[j - 1], evs[j - 1], trail[j], q);
      Present(trail, calls, evs, l, j - 1, q);
    }
  }

  // ---------------------------------------------------------------- one byte of a program's memory

  /** A call that can change a byte of a program: its own store there, its own exec, and the exit code of a wait that goes there
      or to a frame that is shared there. */
  ghost predicate Disturbs(k: State, call: Call, k': State, q: nat, at: nat) {
    || (Runner(k) == q && (call.Exec? || (call.Store? && call.virt == at)))
    || (StoresStatus(k, call, k') && call.status <= at < call.status + 4 && q in Sharers(k.memory, Runner(k), PageOf(at)))
  }

  lemma MatchedOlder(k: State)
    requires Matched(k)
    ensures Older(k.memory.View()) && k.memory.View().spaces.Keys == k.memory.dirs.Keys && AtRest(k.memory)
  {
    hide Sound, Tidy, OwnerlessPrivate, SpaceOf, Tasks.Sound;
  }

  lemma HasIsIn(a: Moment, q: nat, at: nat)
    requires HasByte(a, q, at)
    ensures ByteIn(a.View(), q, at) == Some(ByteAt(a, q, at))
  {
    hide ViewOf, PageOf;
    AddressSplits(at);
  }

  lemma InIsHas(a: Moment, q: nat, at: nat)
    requires AtRest(a) && q in a.dirs && at < 0x1_0000_0000 && ByteIn(a.View(), q, at).Some?
    ensures HasByte(a, q, at) && ByteIn(a.View(), q, at) == Some(ByteAt(a, q, at))
  {
    hide AtRest, ViewOf, PageOf;
    HasIt(a, q, at);
    HasIsIn(a, q, at);
  }

  lemma ActByte(k: State, call: Call, evs: seq<Event>, k': State, q: nat, at: nat)
    requires Matched(k) && !RingOnly(call) && !Waits(call) && Calls(k, call, evs, k') && q in k.memory.dirs && q in k'.memory.dirs
    requires HasByte(k.memory, q, at) && !Disturbs(k, call, k', q, at)
    ensures HasByte(k'.memory, q, at) && ByteAt(k'.memory, q, at) == ByteAt(k.memory, q, at)
  {
    CanDo(k, call, evs, k');
    hide Matched, Calls, Stepped, AtRest, ViewOf, HasByte, ByteAt, ByteIn, Next, Allowed, ValidOp, Older, Sharers, StoresStatus;
    ActIs(k, call, evs, k');
    SteppedAllowed(k.memory, MemoryOp(Runner(k), call), evs[0], k'.memory);
    MatchedOlder(k);
    HasIsIn(k.memory, q, at);
    UnderLimit(k.memory, q, at);
    ByteStays(k.memory.View(), MemoryOp(Runner(k), call), evs[0], q, at);
    InIsHas(k'.memory, q, at);
  }

  lemma UnderLimit(a: Moment, q: nat, at: nat)
    requires HasByte(a, q, at)
    ensures at < 0x1_0000_0000
  {
  }

  lemma CanDo(k: State, call: Call, evs: seq<Event>, k': State)
    requires !RingOnly(call) && !Waits(call) && Calls(k, call, evs, k')
    ensures ValidOp(MemoryOp(Runner(k), call))
  {
    hide Leads, ValidOp, Tasks.Next;
  }

  /** Any other call leaves the byte as it is. */
  lemma ByteKept(k: State, call: Call, evs: seq<Event>, k': State, q: nat, at: nat)
    requires Matched(k) && Calls(k, call, evs, k') && q in k.memory.dirs && q in k'.memory.dirs
    requires HasByte(k.memory, q, at) && !Disturbs(k, call, k', q, at)
    ensures HasByte(k'.memory, q, at) && ByteAt(k'.memory, q, at) == ByteAt(k.memory, q, at)
  {
    hide Matched, Calls, HasByte, ByteAt, Sharers, PageOf, ViewOf, ExitBytes, StoresStatus;
    if RingOnly(call) { RingMatched(k, call, evs, k'); }
    else if Waits(call) { WaitEffect(k, call, evs, k', q, at); }
    else { ActByte(k, call, evs, k', q, at); }
  }

  lemma {:induction false} ByteThrough(trail: seq<State>, calls: seq<Call>, evs: seq<seq<Event>>, l: nat, j: nat, q: nat, at: nat)
    requires Runs(trail, calls, evs) && Matched(trail[0]) && l <= j <= |evs| && q in trail[j].memory.dirs && q < trail[l].memory.next
    requires HasByte(trail[l].memory, q, at)
    requires forall n: nat :: l <= n < j ==> !Disturbs(trail[n], calls[n], trail[n + 1], q, at)
    ensures HasByte(trail[j].memory, q, at) && ByteAt(trail[j].memory, q, at) == ByteAt(trail[l].memory, q, at)
    decreases j
  {
    hide Matched, Calls, HasByte, ByteAt, Disturbs;
    if l < j {
      NextGrows(trail, calls, evs, l, j - 1);
      Present(trail, calls, evs, j - 1, j, q);
      MatchedAt(trail, calls, evs, j - 1);
      assert CallsAt(trail, calls, evs, j - 1);
      ByteThrough(trail, calls, evs, l, j - 1, q, at);
      ByteKept(trail[j - 1], calls[j - 1], evs[j - 1], trail[j], q, at);
    }
  }

  lemma StorePuts(k: State, virt: nat, b: bv8, k': State)
    requires Matched(k) && Calls(k, Store(virt, b), [Stored], k')
    ensures Runner(k) in k'.memory.dirs && Runner(k) < k'.memory.next
    ensures HasByte(k'.memory, Runner(k), virt) && ByteAt(k'.memory, Runner(k), virt) == b
  {
    CanDo(k, Store(virt, b), [Stored], k');
    CallMatched(k, Store(virt, b), [Stored], k');
    hide Matched, Calls, Stepped, AtRest, ViewOf, HasByte, ByteAt, ByteIn, Next, Older;
    ActIs(k, Store(virt, b), [Stored], k');
    SteppedAllowed(k.memory, StoreOp(Runner(k), virt, b), Stored, k'.memory);
    DirsAfter(k.memory, StoreOp(Runner(k), virt, b), Stored, k'.memory);
    MatchedOlder(k);
    HasIt(k.memory, Runner(k), virt);
    HasIsIn(k.memory, Runner(k), virt);
    BytePut(k.memory.View(), Runner(k), virt, b, Runner(k), StoreOp(Runner(k), virt, b), Stored);
    InIsHas(k'.memory, Runner(k), virt);
    OlderHere(k', Runner(k));
  }

  lemma OlderHere(k: State, q: nat)
    requires Matched(k) && q in k.memory.dirs
    ensures q < k.memory.next
  {
  }

  lemma LoadGives(k: State, virt: nat, evs: seq<Event>, k': State)
    requires Matched(k) && Calls(k, Load(virt), evs, k') && HasByte(k.memory, Runner(k), virt)
    ensures evs == [Byte(ByteAt(k.memory, Runner(k), virt))]
  {
    hide Matched, Calls, Stepped, AtRest, ViewOf, HasByte, ByteAt, ByteIn, Next, Allowed;
    ActIs(k, Load(virt), evs, k');
    SteppedAllowed(k.memory, LoadOp(Runner(k), virt), evs[0], k'.memory);
    HasIsIn(k.memory, Runner(k), virt);
    LoadShows(k.memory.View(), Runner(k), virt, evs[0]);
  }

  /** Over every run of calls: a program that loads from an address finds what it last stored there, whatever it and others have
      called in between, but for an exec of its own and an exit code that went there. */
  lemma LoadsWhatWasStored(trail: seq<State>, calls: seq<Call>, evs: seq<seq<Event>>, i: nat, j: nat, virt: nat, b: bv8)
    requires Runs(trail, calls, evs) && Matched(trail[0]) && i < j < |evs|
    requires calls[i] == Store(virt, b) && evs[i] == [Stored] && calls[j] == Load(virt) && Runner(trail[j]) == Runner(trail[i])
    requires forall n: nat :: i < n < j ==> !Disturbs(trail[n], calls[n], trail[n + 1], Runner(trail[i]), virt)
    ensures evs[j] == [Byte(b)]
  {
    hide Matched, Calls, HasByte, ByteAt, Disturbs;
    var q := Runner(trail[i]);
    MatchedAt(trail, calls, evs, i);
    MatchedAt(trail, calls, evs, j);
    assert CallsAt(trail, calls, evs, i) && CallsAt(trail, calls, evs, j);
    StorePuts(trail[i], virt, b, trail[i + 1]);
    LoaderHere(trail[j], virt, evs[j], trail[j + 1]);
    ByteThrough(trail, calls, evs, i + 1, j, q, virt);
    LoadGives(trail[j], virt, evs[j], trail[j + 1]);
  }

  lemma LoaderHere(k: State, virt: nat, evs: seq<Event>, k': State)
    requires Matched(k) && Calls(k, Load(virt), evs, k')
    ensures Runner(k) in k.memory.dirs
  {
    hide Leads, Tasks.Next;
    Running(k);
  }

  // ---------------------------------------------------------------- exit codes

  /** A call that ends a task with a code: its own exit, or being killed. */
  predicate EndsTask(trail: seq<State>, calls: seq<Call>, x: nat, pid: nat, code: int)
    requires |trail| == |calls| + 1
  {
    x < |calls| && ((calls[x] == Exit(code) && Runner(trail[x]) == pid) || calls[x] == Kill(pid, code))
  }

  ghost predicate EndedBefore(trail: seq<State>, calls: seq<Call>, n: nat, pid: nat, code: int)
    requires |trail| == |calls| + 1
  {
    exists x: nat :: x < n && EndsTask(trail, calls, x, pid, code)
  }

  /** What a call writes down of codes. */
  lemma CodeNoted(k: State, call: Call, evs: seq<Event>, k': State, id: nat)
    requires Matched(k) && Calls(k, call, evs, k') && id in k'.tasks.exits
    ensures (id in k.tasks.exits && k.tasks.exits[id] == k'.tasks.exits[id])
         || (call == Exit(k'.tasks.exits[id]) && Runner(k) == id) || call == Kill(id, k'.tasks.exits[id])
  {
    hide Leads, Tasks.Sound, AtRest, Tasks.Allowed, ValidOp;
    if RingOnly(call) || Waits(call) { TaskEffects.Noted(k.tasks, TaskEvent(call)); }
  }

  lemma {:induction false} CodesAt(trail: seq<State>, calls: seq<Call>, evs: seq<seq<Event>>, n: nat, id: nat)
    requires Runs(trail, calls, evs) && Matched(trail[0]) && trail[0].tasks == Tasks.Booted() && n <= |evs| && id in trail[n].tasks.exits
    ensures EndedBefore(trail, calls, n, id, trail[n].tasks.exits[id])
  {
    hide Matched, Calls;
    if n > 0 {
      MatchedAt(trail, calls, evs, n - 1);
      assert CallsAt(trail, calls, evs, n - 1);
      CodeNoted(trail[n - 1], calls[n - 1], evs[n - 1], trail[n], id);
      if id in trail[n - 1].tasks.exits && trail[n - 1].tasks.exits[id] == trail[n].tasks.exits[id] {
        CodesAt(trail, calls, evs, n - 1, id);
      } else {
        assert EndsTask(trail, calls, n - 1, id, trail[n].tasks.exits[id]);
      }
    }
  }

  lemma ReapedCode(k: State, call: Call, evs: seq<Event>, k': State)
    requires Matched(k) && Calls(k, call, evs, k') && Waits(call) && Reaps(k, k')
    ensures var r := k'.tasks.reaped[|k'.tasks.reaped| - 1];
      r.parent == Runner(k) && r.pid in k.tasks.exits && k.tasks.exits[r.pid] == r.code
  {
    CallMatched(k, call, evs, k');
    hide Leads, AtRest, Tasks.Allowed;
    var r := k'.tasks.reaped[|k'.tasks.reaped| - 1];
    TaskEffects.WrittenDown(k'.tasks, r);
    TaskEffects.ReapedOnce(k.tasks, TaskEvent(call));
    TaskEffects.Noted(k.tasks, TaskEvent(call));
  }

  ghost predicate HasWord(a: Moment, q: nat, at: nat) {
    HasByteAt(a, q, at, 0) && HasByteAt(a, q, at, 1) && HasByteAt(a, q, at, 2) && HasByteAt(a, q, at, 3)
  }

  /** The four bytes at an address of a program, as a number. */
  ghost function WordAt(a: Moment, q: nat, at: nat): nat
    requires HasWord(a, q, at)
  {
    ByteAt(a, q, at + 0) as nat + 256 * ByteAt(a, q, at + 1) as nat
    + 65536 * ByteAt(a, q, at + 2) as nat + 16777216 * ByteAt(a, q, at + 3) as nat
  }

  lemma CodeBytes(k': State)
    requires k'.tasks.reaped != []
    ensures var b, code := ExitBytes(k'), k'.tasks.reaped[|k'.tasks.reaped| - 1].code;
      b[0] as nat + 256 * b[1] as nat + 65536 * b[2] as nat + 16777216 * b[3] as nat == code % 0x1_0000_0000
  {
    WordBytes(k'.tasks.reaped[|k'.tasks.reaped| - 1].code % 0x1_0000_0000);
  }

  lemma CodeHeld(k: State, call: Call, evs: seq<Event>, k': State)
    requires Matched(k) && Calls(k, call, evs, k') && StoresStatus(k, call, k')
    ensures k'.tasks.reaped != [] && HasWord(k'.memory, Runner(k), call.status)
    ensures WordAt(k'.memory, Runner(k), call.status) == k'.tasks.reaped[|k'.tasks.reaped| - 1].code % 0x1_0000_0000
  {
    hide Calls, Matched, HasByte, ByteAt, ExitBytes;
    StatusFound(k, call, evs, k', 0);
    StatusFound(k, call, evs, k', 1);
    StatusFound(k, call, evs, k', 2);
    StatusFound(k, call, evs, k', 3);
    CodeBytes(k');
  }

  /** Over every run of calls from boot: when a wait stores a code for its caller, some earlier call has ended a child of the
      caller, and the word that the caller then finds at the address it gave is the code that call named. */
  lemma CodeDelivered(trail: seq<State>, calls: seq<Call>, evs: seq<seq<Event>>, w: nat) returns (x: nat, pid: nat, code: int)
    requires Runs(trail, calls, evs) && Matched(trail[0]) && trail[0].tasks == Tasks.Booted()
    requires w < |evs| && StoresStatus(trail[w], calls[w], trail[w + 1])
    ensures x < w && EndsTask(trail, calls, x, pid, code)
    ensures pid in trail[w].tasks.parents && trail[w].tasks.parents[pid] == Runner(trail[w]) && Tasks.At(trail[w + 1].tasks.ring, pid) == None
    ensures HasWord(trail[w + 1].memory, Runner(trail[w]), calls[w].status)
    ensures WordAt(trail[w + 1].memory, Runner(trail[w]), calls[w].status) == code % 0x1_0000_0000
  {
    assert CallsAt(trail, calls, evs, w);
    hide Calls, Matched, HasByte, ByteAt, ExitBytes, EndsTask, Tasks.At;
    MatchedAt(trail, calls, evs, w);
    CodeHeld(trail[w], calls[w], evs[w], trail[w + 1]);
    ReapedCode(trail[w], calls[w], evs[w], trail[w + 1]);
    var r := trail[w + 1].tasks.reaped[|trail[w + 1].tasks.reaped| - 1];
    CodesAt(trail, calls, evs, w, r.pid);
    ReapedChild(trail[w], calls[w], evs[w], trail[w + 1]);
    pid, code := r.pid, r.code;
    x :| x < w && EndsTask(trail, calls, x, pid, code);
  }

  lemma ReapedChild(k: State, call: Call, evs: seq<Event>, k': State)
    requires Matched(k) && Calls(k, call, evs, k') && Waits(call) && Reaps(k, k')
    ensures var r := k'.tasks.reaped[|k'.tasks.reaped| - 1];
      r.pid in k.tasks.parents && k.tasks.parents[r.pid] == Runner(k) && Tasks.At(k'.tasks.ring, r.pid) == None
  {
    CallMatched(k, call, evs, k');
    hide Leads, AtRest, Tasks.Allowed;
    var r := k'.tasks.reaped[|k'.tasks.reaped| - 1];
    TaskEffects.WrittenDown(k'.tasks, r);
    TaskEffects.ReapedOnce(k.tasks, TaskEvent(call));
    TaskEffects.Noted(k.tasks, TaskEvent(call));
    GoneFromRing(k'.tasks, |k'.tasks.reaped| - 1);
  }

  lemma GoneFromRing(s: Tasks.System, i: nat)
    requires Tasks.Sound(s) && i < |s.reaped|
    ensures Tasks.At(s.ring, s.reaped[i].pid) == None
  {
  }
}
