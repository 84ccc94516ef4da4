/** Whole histories of the kernel's heap: kmalloc and kfree with the owners' own writes into their payloads in between. */
module HeapRuns {
  import opened HeapBlocks
  import opened Heap

  datatype Step = Ask(request: Request) | Put(at: nat, word: nat)

  function Did(s: State, step: Step): State { match step case Ask(r) => Next(s, r) case Put(_, _) => s }

  function AfterSteps(s: State, steps: seq<Step>): State {
    if steps == [] then s else Did(AfterSteps(s, steps[..|steps| - 1]), steps[|steps| - 1])
  }

  /** Only what is live is freed or written to, and there is memory for the heap to grow, where it has to. */
  ghost predicate Proper(s: State, step: Step, limit: nat) {
    match step
    case Ask(Malloc(size)) =>
      size > 0 && FirstFit(s.blocks, RoundedUp(size), 0) == |s.blocks| ==> s.end + PagesFor(RoundedUp(size)) * PAGE <= limit
    case Ask(Free(p)) => p == 0 || exists n: nat :: Live(s.blocks, p, n)
    case Put(at, _) => InLive(s.blocks, at)
  }

  ghost predicate InLive(bs: seq<Block>, at: nat) { exists p: nat, n: nat :: Live(bs, p, n) && p <= at < p + n }

  ghost predicate AllProper(s: State, steps: seq<Step>, limit: nat) {
    forall i :: 0 <= i < |steps| ==> Proper(AfterSteps(s, steps[..i]), steps[i], limit)
  }

  predicate PutsTo(steps: seq<Step>, at: nat) { exists st <- steps :: st.Put? && st.at == at }

  /** What a history leaves of the payloads that were live before: those not freed are still there, and each word of them
      that nobody has written to holds what it held. */
  ghost predicate Untouched(m: Words, bs: seq<Block>, steps: seq<Step>, m': Words, bs': seq<Block>) {
    && |m'| == |m|
    && forall p: nat, n: nat :: Live(bs, p, n) && Ask(Free(p)) !in steps ==> Live(bs', p, n) && WordsKept(m, steps, m', p, n)
  }

  ghost predicate WordsKept(m: Words, steps: seq<Step>, m': Words, p: nat, n: nat)
    requires |m'| == |m|
  {
    forall x: nat :: p <= x < p + n && x < |m| && !PutsTo(steps, x) ==> m'[x] == m[x]
  }

  lemma OneMore(m: Words, bs: seq<Block>, steps: seq<Step>, m1: Words, bs1: seq<Block>, step: Step, m2: Words, bs2: seq<Block>)
    requires Untouched(m, bs, steps, m1, bs1) && Untouched(m1, bs1, [step], m2, bs2)
    ensures Untouched(m, bs, steps + [step], m2, bs2)
  {
    hide Live;
    var all := steps + [step];
    assert forall st :: st in all <==> st in steps || st in [step];
    forall p: nat, n: nat | Live(bs, p, n) && Ask(Free(p)) !in all ensures Live(bs2, p, n) && WordsKept(m, all, m2, p, n) {
      assert WordsKept(m, steps, m1, p, n) && WordsKept(m1, [step], m2, p, n);
      forall x: nat | p <= x < p + n && x < |m| && !PutsTo(all, x) ensures m2[x] == m[x] {
        assert !PutsTo(steps, x) && !PutsTo([step], x);
      }
    }
  }

  lemma AsProper(s: State, steps: seq<Step>, i: nat, limit: nat)
    requires AllProper(s, steps, limit) && i < |steps|
    ensures Proper(AfterSteps(s, steps[..i]), steps[i], limit)
    ensures AfterSteps(s, steps[..i + 1]) == Did(AfterSteps(s, steps[..i]), steps[i])
  {
    assert steps[..i + 1][..i] == steps[..i];
  }

  /** No header word lies inside a live payload. */
  lemma HeaderOutside(bs: seq<Block>, lo: nat, hi: nat, at: nat, i: nat)
    requires Tiles(bs, lo, hi) && InLive(bs, at) && i < |bs|
    ensures !(bs[i].at <= at < bs[i].at + HEADER) && at < hi
  {
    var p: nat, n: nat :| Live(bs, p, n) && p <= at < p + n;
    var j :| 0 <= j < |bs| && !bs[j].free && bs[j].Payload() == p && bs[j].size == n;
    Inside(bs, lo, hi, j);
    if i < j { InOrder(bs, lo, hi, i, j); }
    if j < i { InOrder(bs, lo, hi, j, i); }
  }

  lemma PutSpelled(m: Words, bs: seq<Block>, hi: nat, at: nat, w: nat)
    requires Tiles(bs, HEAP_START, hi) && hi <= |m| && Spelled(m, bs) && InLive(bs, at)
    ensures at < hi && Spelled(m[at := w], bs)
  {
    HeaderOutside(bs, HEAP_START, hi, at, 0);
    var m' := m[at := w];
    forall i | 0 <= i < |bs| ensures HeaderAt(m', bs, i) {
      HeaderOutside(bs, HEAP_START, hi, at, i);
      assert HeaderAt(m, bs, i);
    }
  }

  /** A call that keeps the payloads of the blocks that stay live. */
  lemma AskUntouched(m: Words, bs: seq<Block>, r: Request, m': Words, bs': seq<Block>, kept: seq<Block>)
    requires PayloadsKept(m, m', kept)
    requires forall p: nat, n: nat :: Live(bs, p, n) && r != Free(p) ==> Live(bs', p, n) && Live(kept, p, n)
    ensures Untouched(m, bs, [Ask(r)], m', bs')
  {
    hide Live;
    forall p: nat, n: nat | Live(bs, p, n) && Ask(Free(p)) !in [Ask(r)] ensures Live(bs', p, n) && WordsKept(m, [Ask(r)], m', p, n) {
      assert Live(kept, p, n);
    }
  }

  lemma PutUntouched(m: Words, bs: seq<Block>, at: nat, w: nat)
    requires at < |m|
    ensures Untouched(m, bs, [Put(at, w)], m[at := w], bs)
  {
    hide Live;
    forall x: nat | !PutsTo([Put(at, w)], x) ensures x != at { assert Put(at, w) in [Put(at, w)]; }
  }

  /** One step. */
  method Perform(heap: Heap, step: Step)
    requires heap.Valid() && Proper(heap.Now(), step, heap.mem.Length)
    modifies heap, heap.mem
    ensures heap.Valid() && heap.Now() == Did(old(heap.Now()), step)
    ensures Untouched(old(heap.mem[..]), old(heap.blocks), [step], heap.mem[..], heap.blocks)
    ensures step.Put? ==> step.at < heap.mem.Length && heap.mem[..] == old(heap.mem[..])[step.at := step.word]
  {
    hide Tiles, Live, NoAdjacentFree, FirstFit, PayloadsKept, Untouched;
    ghost var m, bs := heap.mem[..], heap.blocks;
    match step
    case Ask(Malloc(size)) =>
      var result;
      ghost var got;
      result, got := heap.Kmalloc(size);
      AskUntouched(m, bs, Malloc(size), heap.mem[..], heap.blocks, bs);
    case Ask(Free(ptr)) =>
      heap.Kfree(ptr);
      AskUntouched(m, bs, Free(ptr), heap.mem[..], heap.blocks, heap.blocks);
    case Put(at, word) =>
      PutSpelled(m, bs, heap.heapEnd, at, word);
      heap.mem[at] := word;
      assert heap.mem[..] == m[at := word];
      PutUntouched(m, bs, at, word);
  }

  // ---------------------------------------------------------------- what was put last

  /** A word put into a live payload at step i, not written over since, in a payload not freed since. */
  ghost predicate PutStands(s: State, steps: seq<Step>, i: nat, p: nat, n: nat) {
    && i < |steps| && steps[i].Put? && Live(AfterSteps(s, steps[..i]).blocks, p, n) && p <= steps[i].at < p + n
    && Ask(Free(p)) !in steps[i + 1..] && !PutsTo(steps[i + 1..], steps[i].at)
  }

  /** Every such word is there, whenever its payload was handed out. */
  ghost predicate LastPuts(s: State, steps: seq<Step>, m: Words, bs: seq<Block>) {
    forall i: nat, p: nat, n: nat :: PutStands(s, steps, i, p, n) ==>
      Live(bs, p, n) && steps[i].at < |m| && m[steps[i].at] == steps[i].word
  }

  lemma LastMore(s: State, steps: seq<Step>, m: Words, bs: seq<Block>, step: Step, m': Words, bs': seq<Block>)
    requires LastPuts(s, steps, m, bs) && bs == AfterSteps(s, steps).blocks && Untouched(m, bs, [step], m', bs')
    requires step.Put? ==> step.at < |m| && m' == m[step.at := step.word]
    ensures LastPuts(s, steps + [step], m', bs')
  {
    hide Live, AfterSteps;
    var all := steps + [step];
    forall i: nat, p: nat, n: nat | PutStands(s, all, i, p, n)
      ensures Live(bs', p, n) && all[i].at < |m'| && m'[all[i].at] == all[i].word
    {
      if i < |steps| {
        assert all[..i] == steps[..i] && all[i + 1..] == steps[i + 1..] + [step];
        StandsBefore(s, steps, step, i, p, n);
        assert WordsKept(m, [step], m', p, n);
      } else {
        assert all[..i] == steps;
        assert Live(bs, p, n) && Ask(Free(p)) !in [step];
      }
    }
  }

  lemma StandsBefore(s: State, steps: seq<Step>, step: Step, i: nat, p: nat, n: nat)
    requires PutStands(s, steps + [step], i, p, n) && i < |steps|
    ensures PutStands(s, steps, i, p, n) && Ask(Free(p)) !in [step] && !PutsTo([step], steps[i].at)
  {
    hide Live, AfterSteps;
    var all := steps + [step];
    assert all[..i] == steps[..i] && all[i + 1..] == steps[i + 1..] + [step];
    assert forall st :: st in all[i + 1..] <==> st in steps[i + 1..] || st in [step];
  }

  lemma NothingPut(s: State, m: Words, bs: seq<Block>)
    ensures LastPuts(s, [], m, bs)
  {
  }

  /** Over every history of calls: what was handed out, at whatever time, and not freed since is there at its size, and every
      word of it holds what its owner put there last. */
  method Run(heap: Heap, steps: seq<Step>)
    requires heap.Valid() && AllProper(heap.Now(), steps, heap.mem.Length)
    modifies heap, heap.mem
    ensures heap.Valid() && heap.Now() == AfterSteps(old(heap.Now()), steps)
    ensures Untouched(old(heap.mem[..]), old(heap.blocks), steps, heap.mem[..], heap.blocks)
    ensures LastPuts(old(heap.Now()), steps, heap.mem[..], heap.blocks)
  {
    hide Live, Untouched, Proper, Did, LastPuts;
    NothingDone(heap.mem[..], heap.blocks);
    NothingPut(heap.Now(), heap.mem[..], heap.blocks);
    for i := 0 to |steps|
      invariant heap.Valid() && heap.Now() == AfterSteps(old(heap.Now()), steps[..i])
      invariant Untouched(old(heap.mem[..]), old(heap.blocks), steps[..i], heap.mem[..], heap.blocks)
      invariant LastPuts(old(heap.Now()), steps[..i], heap.mem[..], heap.blocks)
    {
      ghost var m, bs := heap.mem[..], heap.blocks;
      AsProper(old(heap.Now()), steps, i, heap.mem.Length);
      Perform(heap, steps[i]);
      OneMore(old(heap.mem[..]), old(heap.blocks), steps[..i], m, bs, steps[i], heap.mem[..], heap.blocks);
      LastMore(old(heap.Now()), steps[..i], m, bs, steps[i], heap.mem[..], heap.blocks);
      assert steps[..i + 1] == steps[..i] + [steps[i]];
    }
    assert steps[..|steps|] == steps;
  }

  lemma NothingDone(m: Words, bs: seq<Block>)
    ensures Untouched(m, bs, [], m, bs)
  {
  }
}
