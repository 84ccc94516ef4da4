/** kmalloc and kfree of kernel/heap.c over a memory of words, with frames assumed to be there when the
    heap grows. */
module Heap {
  import opened HeapBlocks

  const HEAP_START := 0x0040_0000
  const HEAP_INITIAL_PAGES := 4

  /** The word at byte address a. Only multiples of four are used. */
  type Words = seq<nat>

  function NextOf(bs: seq<Block>, i: nat): nat { if i + 1 < |bs| then bs[i + 1].at else 0 }

  ghost predicate HeaderAt(m: Words, bs: seq<Block>, i: nat)
    requires i < |bs|
  {
    && bs[i].at + HEADER <= |m|
    && m[bs[i].at] == bs[i].size && m[bs[i].at + 4] == (if bs[i].free then 1 else 0) && m[bs[i].at + 8] == NextOf(bs, i)
  }

  /** The headers in memory spell the block list. */
  ghost predicate Spelled(m: Words, bs: seq<Block>) { forall i :: 0 <= i < |bs| ==> HeaderAt(m, bs, i) }

  /** Memory agrees outside the header words at a and b. */
  ghost predicate SameBut(m: Words, m': Words, a: nat, b: nat) {
    |m'| == |m| && forall x :: 0 <= x < |m| && !(a <= x < a + HEADER) && !(b <= x < b + HEADER) ==> m'[x] == m[x]
  }

  /** A list that differs at block k only in its header words, and in blocks whose headers were written. */
  lemma SpelledTake(m: Words, bs: seq<Block>, lo: nat, hi: nat, i: nat, size: nat, m': Words)
    requires Tiles(bs, lo, hi) && hi <= |m| && Spelled(m, bs) && i < |bs| && Fits(bs[i], size) && size > 0 && size % 4 == 0
    requires if Splits(bs[i], size) then SameBut(m, m', bs[i].at, bs[i].at + HEADER + size) else SameBut(m, m', bs[i].at, bs[i].at)
    requires HeaderAt(m', Take(bs, i, size), i) && (Splits(bs[i], size) ==> HeaderAt(m', Take(bs, i, size), i + 1))
    ensures Spelled(m', Take(bs, i, size))
  {
    var t := Take(bs, i, size);
    forall k | 0 <= k < |t|
      ensures HeaderAt(m', t, k)
    {
      if k < i {
        InOrder(bs, lo, hi, k, i);
        assert t[k] == bs[k] && HeaderAt(m, bs, k);
      } else if k > i && !(Splits(bs[i], size) && k == i + 1) {
        var k0 := if Splits(bs[i], size) then k - 1 else k;
        InOrder(bs, lo, hi, i, k0);
        Inside(bs, lo, hi, k0);
        assert t[k] == bs[k0] && HeaderAt(m, bs, k0);
        assert k + 1 < |t| ==> t[k + 1] == bs[k0 + 1];
      }
    }
  }

  /** The last block's link set to a new block at the end. */
  lemma SpelledGrow(m: Words, bs: seq<Block>, lo: nat, hi: nat, size: nat, m': Words)
    requires Tiles(bs, lo, hi) && hi + PagesFor(size) * PAGE <= |m| && Spelled(m, bs)
    requires SameBut(m, m', bs[|bs| - 1].at, hi)
    requires HeaderAt(m', Grow(bs, hi, size), |bs| - 1) && HeaderAt(m', Grow(bs, hi, size), |bs|)
    ensures Spelled(m', Grow(bs, hi, size))
  {
    var t := Grow(bs, hi, size);
    forall k | 0 <= k < |bs| - 1
      ensures HeaderAt(m', t, k)
    {
      InOrder(bs, lo, hi, k, |bs| - 1);
      Inside(bs, lo, hi, k);
      assert HeaderAt(m, bs, k);
    }
  }

  lemma SpelledMark(m: Words, bs: seq<Block>, lo: nat, hi: nat, i: nat, m': Words)
    requires Tiles(bs, lo, hi) && hi <= |m| && Spelled(m, bs) && i < |bs| && HeaderAt(m, bs, i)
    requires m' == m[bs[i].at + 4 := 1]
    ensures Spelled(m', bs[i := bs[i].(free := true)])
  {
    var b := bs[i := bs[i].(free := true)];
    forall k | 0 <= k < |b|
      ensures HeaderAt(m', b, k)
    {
      assert HeaderAt(m, bs, k);
      if k < i { InOrder(bs, lo, hi, k, i); } else if i < k { InOrder(bs, lo, hi, i, k); }
    }
  }

  lemma SpelledJoin(m: Words, bs: seq<Block>, lo: nat, hi: nat, i: nat, m': Words)
    requires Tiles(bs, lo, hi) && hi <= |m| && Spelled(m, bs) && i + 1 < |bs| && HeaderAt(m, bs, i)
    requires m' == m[bs[i].at := bs[i].size + HEADER + bs[i + 1].size][bs[i].at + 8 := NextOf(bs, i + 1)]
    ensures Spelled(m', JoinAt(bs, i))
  {
    var c := JoinAt(bs, i);
    forall k | 0 <= k < |c|
      ensures HeaderAt(m', c, k)
    {
      var k0 := if k <= i then k else k + 1;
      assert HeaderAt(m, bs, k0);
      if k < i { InOrder(bs, lo, hi, k, i); } else if k > i { InOrder(bs, lo, hi, i, k0); assert c[k] == bs[k0]; }
      assert k > i && k + 1 < |c| ==> c[k + 1] == bs[k0 + 1];
      assert k == i && k + 1 < |c| ==> c[k + 1] == bs[k + 2];
    }
  }

  // ---------------------------------------------------------------- payloads

  /** Live payloads hold what they held. */
  ghost predicate PayloadsKept(m: Words, m': Words, bs: seq<Block>) {
    |m'| == |m| && forall p: nat, s: nat, x: nat :: Live(bs, p, s) && p <= x < p + s && x < |m| ==> m'[x] == m[x]
  }

  /** Writing the header of a block, or anything in a free block or past the end, leaves payloads alone. */
  lemma HeadersOnly(m: Words, m': Words, bs: seq<Block>, lo: nat, hi: nat, i: nat, b: nat)
    requires Tiles(bs, lo, hi) && i < |bs| && SameBut(m, m', bs[i].at, b)
    requires b == bs[i].at || b >= hi || (bs[i].free && bs[i].Payload() <= b && b + HEADER <= bs[i].End())
    ensures PayloadsKept(m, m', bs)
  {
    forall p: nat, s: nat, x: nat | Live(bs, p, s) && p <= x < p + s && x < |m|
      ensures m'[x] == m[x]
    {
      var k :| 0 <= k < |bs| && !bs[k].free && bs[k].Payload() == p && bs[k].size == s;
      Inside(bs, lo, hi, k);
      if k < i { InOrder(bs, lo, hi, k, i); } else if i < k { InOrder(bs, lo, hi, i, k); }
    }
  }

  lemma TookBlock(m: Words, m': Words, bs: seq<Block>, hi: nat, i: nat, size: nat)
    requires Tiles(bs, HEAP_START, hi) && hi <= |m| && Spelled(m, bs) && NoAdjacentFree(bs)
    requires i < |bs| && Fits(bs[i], size) && size > 0 && size % 4 == 0
    requires SameBut(m, m', bs[i].at, if Splits(bs[i], size) then bs[i].at + HEADER + size else bs[i].at)
    requires HeaderAt(m', Take(bs, i, size), i) && (Splits(bs[i], size) ==> HeaderAt(m', Take(bs, i, size), i + 1))
    ensures Tiles(Take(bs, i, size), HEAP_START, hi) && Spelled(m', Take(bs, i, size)) && NoAdjacentFree(Take(bs, i, size))
    ensures PayloadsKept(m, m', bs)
  {
    TakeTiles(bs, HEAP_START, hi, i, size);
    TakeKeepsApart(bs, i, size);
    HeadersOnly(m, m', bs, HEAP_START, hi, i, if Splits(bs[i], size) then bs[i].at + HEADER + size else bs[i].at);
    SpelledTake(m, bs, HEAP_START, hi, i, size, m');
  }

  /** What the header of block i says. */
  lemma BlockFacts(m: Words, bs: seq<Block>, hi: nat, i: nat)
    requires Tiles(bs, HEAP_START, hi) && hi <= |m| && Spelled(m, bs) && i < |bs|
    ensures HEAP_START <= bs[i].at && bs[i].End() <= hi && bs[i].at % 4 == 0 && HeaderAt(m, bs, i)
    ensures i + 1 < |bs| ==> bs[i + 1].at > 0
  {
    Inside(bs, HEAP_START, hi, i);
    assert HeaderAt(m, bs, i);
  }

  /** The words that taking block i writes. */
  function TakeWords(m: Words, b: Block, size: nat): (m': Words)
    requires b.End() <= |m| && Fits(b, size)
    ensures |m'| == |m|
  {
    if Splits(b, size) then
      var split := b.at + HEADER + size;
      m[split := b.size - size - HEADER][split + 4 := 1][split + 8 := m[b.at + 8]][b.at := size][b.at + 8 := split][b.at + 4 := 0]
    else m[b.at + 4 := 0]
  }

  lemma TakeWordsFacts(m: Words, bs: seq<Block>, hi: nat, i: nat, size: nat)
    requires Tiles(bs, HEAP_START, hi) && hi <= |m| && Spelled(m, bs) && i < |bs| && Fits(bs[i], size) && bs[i].End() <= |m|
    ensures var m' := TakeWords(m, bs[i], size);
      && SameBut(m, m', bs[i].at, if Splits(bs[i], size) then bs[i].at + HEADER + size else bs[i].at)
      && HeaderAt(m', Take(bs, i, size), i) && (Splits(bs[i], size) ==> HeaderAt(m', Take(bs, i, size), i + 1))
  {
    BlockFacts(m, bs, hi, i);
    hide Tiles, Spelled;
    if Splits(bs[i], size) { SplitHeaders(m, bs, i, size); } else { WholeHeader(m, bs, i, size); }
  }

  lemma SplitHeaders(m: Words, bs: seq<Block>, i: nat, size: nat)
    requires i < |bs| && Fits(bs[i], size) && Splits(bs[i], size) && bs[i].End() <= |m| && HeaderAt(m, bs, i)
    ensures HeaderAt(TakeWords(m, bs[i], size), Take(bs, i, size), i) && HeaderAt(TakeWords(m, bs[i], size), Take(bs, i, size), i + 1)
  {
    var t, b := Take(bs, i, size), bs[i];
    assert t[i] == Block(b.at, size, false) && t[i + 1] == Block(b.at + HEADER + size, b.size - size - HEADER, true);
    assert i + 1 < |bs| ==> t[i + 2] == bs[i + 1];
    assert NextOf(t, i) == b.at + HEADER + size && NextOf(t, i + 1) == NextOf(bs, i);
    hide Take, NextOf;
  }

  lemma WholeHeader(m: Words, bs: seq<Block>, i: nat, size: nat)
    requires i < |bs| && Fits(bs[i], size) && !Splits(bs[i], size) && bs[i].End() <= |m| && HeaderAt(m, bs, i)
    ensures HeaderAt(TakeWords(m, bs[i], size), Take(bs, i, size), i)
  {
    assert NextOf(Take(bs, i, size), i) == NextOf(bs, i);
  }

  /** The words that growing the heap writes. */
  function GrowWords(m: Words, prev: nat, hi: nat, pages: nat): (m': Words)
    requires prev + HEADER <= hi && hi + HEADER <= |m| && HEADER <= pages * PAGE
    ensures |m'| == |m|
  {
    m[hi := pages * PAGE - HEADER][hi + 4 := 0][hi + 8 := 0][prev + 8 := hi]
  }

  lemma GrewHeap(m: Words, bs: seq<Block>, hi: nat, size: nat)
    requires Tiles(bs, HEAP_START, hi) && hi + PagesFor(size) * PAGE <= |m| && Spelled(m, bs) && NoAdjacentFree(bs) && size > 0
    requires bs[|bs| - 1].at + HEADER <= hi
    ensures var m', t := GrowWords(m, bs[|bs| - 1].at, hi, PagesFor(size)), Grow(bs, hi, size);
      Tiles(t, HEAP_START, hi + PagesFor(size) * PAGE) && Spelled(m', t) && NoAdjacentFree(t) && PayloadsKept(m, m', bs)
  {
    BlockFacts(m, bs, hi, |bs| - 1);
    var m' := GrowWords(m, bs[|bs| - 1].at, hi, PagesFor(size));
    GrowTiles(bs, HEAP_START, hi, size);
    HeadersOnly(m, m', bs, HEAP_START, hi, |bs| - 1, hi);
    SpelledGrow(m, bs, HEAP_START, hi, size, m');
  }

  lemma KeptOn(m: Words, m': Words, m'': Words, bs: seq<Block>, bs': seq<Block>)
    requires PayloadsKept(m, m', bs) && PayloadsKept(m', m'', bs')
    requires forall p: nat, s: nat :: Live(bs, p, s) ==> Live(bs', p, s)
    ensures PayloadsKept(m, m'', bs)
  {
  }

  /** Block i has been handed out for a request of so many bytes: cut to size if 28 bytes or more would be left over, with one
      free block for the rest behind it, or else whole; and every other block is as it was. */
  ghost predicate TakenFrom(bs: seq<Block>, i: nat, size: nat, bs': seq<Block>, got: nat)
    requires i < |bs|
  {
    && i < |bs'| && bs'[..i] == bs[..i] && bs'[i] == Block(bs[i].at, got, false) && size <= got < size + 28
    && (bs[i].size < size + 28 ==> got == bs[i].size && bs'[i + 1..] == bs[i + 1..])
    && (bs[i].size >= size + 28 ==>
          got == size && bs'[i + 1..] == [Block(bs[i].at + 12 + size, bs[i].size - size - 12, true)] + bs[i + 1..])
  }

  /** The heap has grown for a request of so many bytes: by the least number of pages of 4096 bytes that hold it and a header of
      12 bytes, which are one block. */
  ghost predicate GrownBy(bs: seq<Block>, hi: nat, size: nat, bs': seq<Block>, hi': nat, got: int) {
    && got >= 0 && bs' == bs + [Block(hi, got, false)] && hi' == hi + 12 + got
    && (hi' - hi) % 4096 == 0 && size <= got < size + 4096
  }

  /** No block before the k-th is free and large enough. */
  ghost predicate NoneFits(bs: seq<Block>, size: nat, k: nat) {
    k <= |bs| && forall j :: 0 <= j < k ==> !(bs[j].free && bs[j].size >= size)
  }

  lemma NoneBefore(bs: seq<Block>, size: nat)
    ensures NoneFits(bs, size, FirstFit(bs, size, 0))
  {
  }

  lemma TakenIs(bs: seq<Block>, i: nat, size: nat)
    requires i < |bs| && Fits(bs[i], size)
    ensures i < |Take(bs, i, size)| && TakenFrom(bs, i, size, Take(bs, i, size), Take(bs, i, size)[i].size)
  {
    if !Splits(bs[i], size) { assert bs[i := bs[i].(free := false)][i + 1..] == bs[i + 1..]; }
  }

  lemma GrownIs(bs: seq<Block>, hi: nat, size: nat)
    ensures |Grow(bs, hi, size)| == |bs| + 1
    ensures GrownBy(bs, hi, size, Grow(bs, hi, size), hi + PagesFor(size) * PAGE, Grow(bs, hi, size)[|bs|].size)
  {
  }

  // ---------------------------------------------------------------- the heap

  class Heap {
    const mem: array<nat>
    var heapEnd: nat
    var heapHead: nat
    ghost var blocks: seq<Block>

    ghost predicate Valid()
      reads this, mem
    {
      && heapHead == HEAP_START && Tiles(blocks, HEAP_START, heapEnd) && heapEnd <= mem.Length
      && Spelled(mem[..], blocks) && NoAdjacentFree(blocks)
    }

    ghost function Now(): State
      reads this
    {
      State(blocks, heapEnd)
    }

    /** heap_init, on memory whose contents are arbitrary. */
    constructor (mem: array<nat>)
      requires HEAP_START + HEAP_INITIAL_PAGES * PAGE <= mem.Length
      modifies mem
      ensures this.mem == mem && Valid() && heapEnd == HEAP_START + HEAP_INITIAL_PAGES * PAGE
      ensures heapHead == 0x40_0000 && heapEnd == 0x40_4000 && blocks == [Block(0x40_0000, 16372, true)]
    {
      this.mem := mem;
      heapEnd := HEAP_START;
      heapHead := HEAP_START;
      blocks := [Block(HEAP_START, HEAP_INITIAL_PAGES * PAGE - HEADER, true)];
      new;
      HeapExtend(HEAP_INITIAL_PAGES);
      PutHeader(heapHead, HEAP_INITIAL_PAGES * PAGE - HEADER, 1, 0);
    }

    /** heap_extend, with a frame for every page. */
    method HeapExtend(pages: nat)
      modifies this`heapEnd
      ensures heapEnd == old(heapEnd) + pages * PAGE
    {
      for i := 0 to pages
        invariant heapEnd == old(heapEnd) + i * PAGE
      {
        heapEnd := heapEnd + PAGE;
      }
    }

    /** The three words of a header. */
    method PutHeader(at: nat, size: nat, free: nat, next: nat)
      requires at + HEADER <= mem.Length
      modifies mem
      ensures mem[..] == old(mem[..])[at := size][at + 4 := free][at + 8 := next]
    {
      mem[at] := size;
      mem[at + 4] := free;
      mem[at + 8] := next;
    }

    /** kmalloc. The block handed out is the lowest that fits, or the new end of the heap. */
    method Kmalloc(request: nat) returns (result: nat, ghost got: nat)
      requires Valid()
      requires request > 0 && FirstFit(blocks, RoundedUp(request), 0) == |blocks| ==>
        heapEnd + PagesFor(RoundedUp(request)) * PAGE <= mem.Length
      modifies this, mem
      ensures Valid() && heapHead == old(heapHead)
      ensures Now() == Next(old(Now()), Malloc(request))
      ensures request == 0 ==> result == 0 && mem[..] == old(mem[..])
      ensures request > 0 ==> var i := FirstFit(old(blocks), RoundedUp(request), 0);
        result == if i < |old(blocks)| then old(blocks)[i].Payload() else old(heapEnd) + HEADER
      ensures request > 0 ==> got >= request && result % 4 == 0
      ensures request > 0 ==> var i := FirstFit(old(blocks), RoundedUp(request), 0);
        if i < |old(blocks)| then heapEnd == old(heapEnd) && TakenFrom(old(blocks), i, RoundedUp(request), blocks, got)
        else GrownBy(old(blocks), old(heapEnd), RoundedUp(request), blocks, heapEnd, got)
      ensures request > 0 ==> forall p: nat, s: nat :: Live(blocks, p, s) <==> Live(old(blocks), p, s) || (p == result && s == got)
      ensures NoneFits(old(blocks), RoundedUp(request), FirstFit(old(blocks), RoundedUp(request), 0))
      ensures PayloadsKept(old(mem[..]), mem[..], old(blocks))
    {
      NoneBefore(blocks, RoundedUp(request));
      hide Tiles, Spelled, NoAdjacentFree, PayloadsKept, Live, Take, Grow, PagesFor, NoneFits;
      if request == 0 {
        NothingWritten(mem[..], blocks);
        return 0, 0;
      }
      var size := (request + 3) / 4 * 4;
      var cur, prev := heapHead, 0;
      ghost var i := 0;
      HeadFacts(blocks, heapEnd);
      while cur != 0
        invariant Valid() && blocks == old(blocks) && mem[..] == old(mem[..]) && heapEnd == old(heapEnd) && heapHead == old(heapHead)
        invariant i <= |blocks| && cur == (if i < |blocks| then blocks[i].at else 0) && (cur == 0 <==> i == |blocks|)
        invariant i > 0 ==> prev == blocks[i - 1].at
        invariant FirstFit(blocks, size, i) == FirstFit(blocks, size, 0)
        decreases |blocks| - i
      {
        BlockFacts(mem[..], blocks, heapEnd, i);
        if mem[cur + 4] != 0 && mem[cur] >= size {
          TakenLive(blocks, i, size);
          TakenIs(blocks, i, size);
          got := Take(blocks, i, size)[i].size;
          TakeBlock(cur, size, i);
          return cur + HEADER, got;
        }
        prev, cur, i := cur, mem[cur + 8], i + 1;
      }
      GrownLive(blocks, HEAP_START, heapEnd, size);
      GrownIs(blocks, heapEnd, size);
      got := Grow(blocks, heapEnd, size)[|blocks|].size;
      result := GrowHeap(prev, size);
    }

    method TakeBlock(cur: nat, size: nat, ghost i: nat)
      requires Valid() && i < |blocks| && cur == blocks[i].at && Fits(blocks[i], size) && size > 0 && size % 4 == 0
      modifies mem, this`blocks
      ensures Valid() && blocks == Take(old(blocks), i, size)
      ensures i < |blocks| && TakenFrom(old(blocks), i, size, blocks, blocks[i].size)
      ensures PayloadsKept(old(mem[..]), mem[..], old(blocks))
    {
      hide Tiles, Spelled, NoAdjacentFree, PayloadsKept, Take;
      ghost var bs, m := blocks, mem[..];
      BlockFacts(m, bs, heapEnd, i);
      if mem[cur] >= size + HEADER + SPARE {
        var split := cur + HEADER + size;
        PutHeader(split, mem[cur] - size - HEADER, 1, mem[cur + 8]);
        mem[cur] := size;
        mem[cur + 8] := split;
      }
      mem[cur + 4] := 0;
      assert mem[..] == TakeWords(m, bs[i], size);
      blocks := Take(bs, i, size);
      TakeWordsFacts(m, bs, heapEnd, i, size);
      TakenIs(bs, i, size);
      TookBlock(m, mem[..], bs, heapEnd, i, size);
    }

    /** The heap grown by whole pages for a block of its own. */
    method GrowHeap(prev: nat, size: nat) returns (result: nat)
      requires Valid() && blocks != [] && prev == blocks[|blocks| - 1].at && size > 0 && size % 4 == 0
      requires heapEnd + PagesFor(size) * PAGE <= mem.Length
      modifies this`heapEnd, this`blocks, mem
      ensures Valid() && blocks == Grow(old(blocks), old(heapEnd), size) && result == old(heapEnd) + HEADER
      ensures heapEnd == old(heapEnd) + PagesFor(size) * PAGE
      ensures GrownBy(old(blocks), old(heapEnd), size, blocks, heapEnd, heapEnd - old(heapEnd) - 12)
      ensures PayloadsKept(old(mem[..]), mem[..], old(blocks))
    {
      hide Tiles, Spelled, NoAdjacentFree, PayloadsKept, Grow;
      GrownIs(blocks, heapEnd, size);
      ghost var bs, m, hi := blocks, mem[..], heapEnd;
      BlockFacts(m, bs, hi, |bs| - 1);
      var needed := size + HEADER;
      var pages := (needed + PAGE - 1) / PAGE;
      var block := heapEnd;
      HeapExtend(pages);
      PutHeader(block, pages * PAGE - HEADER, 0, 0);
      mem[prev + 8] := block;
      assert mem[..] == GrowWords(m, prev, hi, pages);
      blocks := Grow(bs, hi, size);
      GrewHeap(m, bs, hi, size);
      return block + HEADER;
    }

    /** kfree, of a pointer in use. The block is joined with the free ones beside it. */
    method Kfree(ptr: nat)
      requires Valid() && (ptr != 0 ==> exists s: nat :: Live(blocks, ptr, s))
      modifies mem, this`blocks
      ensures Valid()
      ensures Now() == Next(old(Now()), Free(ptr))
      ensures ptr == 0 ==> mem[..] == old(mem[..])
      ensures forall p: nat, s: nat :: Live(blocks, p, s) <==> Live(old(blocks), p, s) && p != ptr
      ensures PayloadsKept(old(mem[..]), mem[..], blocks)
    {
      ghost var bs, m0 := blocks, mem[..];
      if ptr == 0 {
        NoNullPayload(bs);
        NothingWritten(m0, bs);
        return;
      }
      ghost var i := LiveAt(bs, ptr, 0);
      assert i < |bs|;
      hide Tiles, Spelled, NoAdjacentFree, PayloadsKept, Live, Coalesce, Release, ApartTo;
      BlockFacts(m0, bs, heapEnd, i);
      var hdr := ptr - HEADER;
      mem[hdr + 4] := 1;
      assert mem[..] == m0[hdr + 4 := 1];
      ghost var m1, marked := mem[..], bs[i := bs[i].(free := true)];
      blocks := marked;
      Marked(m0, bs, heapEnd, i, m1);
      CoalescePass();
      FreeingReleases(bs, i);
      CoalesceComplete(marked, 0);
      FreedLive(bs, heapEnd, i);
      KeptOn(m0, m1, mem[..], blocks, marked);
    }

    /** The loop of kfree, from the head of the list. */
    method CoalescePass()
      requires heapHead == HEAP_START && Tiles(blocks, HEAP_START, heapEnd) && heapEnd <= mem.Length && Spelled(mem[..], blocks)
      modifies mem, this`blocks
      ensures Tiles(blocks, HEAP_START, heapEnd) && Spelled(mem[..], blocks)
      ensures blocks == Coalesce(old(blocks), 0)
      ensures PayloadsKept(old(mem[..]), mem[..], old(blocks))
    {
      var cur := heapHead;
      ghost var k, b0, m0 := 0, blocks, mem[..];
      assert HeaderAt(mem[..], blocks, 0);
      while cur != 0 && mem[cur + 8] != 0
        invariant Tiles(blocks, HEAP_START, heapEnd) && Spelled(mem[..], blocks)
        invariant k < |blocks| && cur == blocks[k].at > 0 && cur + HEADER <= mem.Length && HeaderAt(mem[..], blocks, k)
        invariant Coalesce(blocks, k) == Coalesce(b0, 0)
        invariant PayloadsKept(m0, mem[..], b0) && forall p: nat, s: nat :: Live(b0, p, s) ==> Live(blocks, p, s)
        decreases |blocks| - k
      {
        Inside(blocks, HEAP_START, heapEnd, k + 1);
        assert HeaderAt(mem[..], blocks, k + 1);
        var next := mem[cur + 8];
        if mem[cur + 4] != 0 && mem[next + 4] != 0 {
          JoinNext(cur, next, k);
          assert HeaderAt(mem[..], blocks, k);
        } else {
          cur := next;
          k := k + 1;
        }
      }
    }

    /** One block joined with the next. */
    method JoinNext(cur: nat, next: nat, ghost k: nat)
      requires Tiles(blocks, HEAP_START, heapEnd) && heapEnd <= mem.Length && Spelled(mem[..], blocks)
      requires k + 1 < |blocks| && cur == blocks[k].at && next == blocks[k + 1].at && blocks[k].free && blocks[k + 1].free
      modifies mem, this`blocks
      ensures blocks == JoinAt(old(blocks), k) && Tiles(blocks, HEAP_START, heapEnd) && Spelled(mem[..], blocks)
      ensures PayloadsKept(old(mem[..]), mem[..], old(blocks))
      ensures forall p: nat, s: nat :: Live(blocks, p, s) <==> Live(old(blocks), p, s)
    {
      ghost var bs, m := blocks, mem[..];
      assert HeaderAt(m, bs, k) && HeaderAt(m, bs, k + 1);
      mem[cur] := mem[cur] + HEADER + mem[next];
      mem[cur + 8] := mem[next + 8];
      blocks := JoinAt(bs, k);
      JoinTiles(bs, HEAP_START, heapEnd, k);
      SpelledJoin(m, bs, HEAP_START, heapEnd, k, mem[..]);
      HeadersOnly(m, mem[..], bs, HEAP_START, heapEnd, k, cur);
      forall p: nat, s: nat ensures Live(blocks, p, s) <==> Live(bs, p, s) { JoinLive(bs, k, p, s); }
    }
  }

  lemma HeadFacts(bs: seq<Block>, hi: nat)
    requires Tiles(bs, HEAP_START, hi)
    ensures bs != [] && bs[0].at == HEAP_START
  {
  }

  lemma TakenLive(bs: seq<Block>, i: nat, size: nat)
    requires i < |bs| && Fits(bs[i], size)
    ensures var t := Take(bs, i, size);
      && i < |t| && t[i].size >= size
      && forall p: nat, s: nat :: Live(t, p, s) <==> Live(bs, p, s) || (p == bs[i].at + HEADER && s == t[i].size)
  {
    forall p: nat, s: nat
      ensures Live(Take(bs, i, size), p, s) <==> Live(bs, p, s) || (p == bs[i].at + HEADER && s == Take(bs, i, size)[i].size)
    {
      TakeLive(bs, i, size, p, s);
    }
  }

  lemma GrownLive(bs: seq<Block>, lo: nat, hi: nat, size: nat)
    requires Tiles(bs, lo, hi) && lo % 4 == 0 && size > 0
    ensures bs != [] && hi % 4 == 0
    ensures var t := Grow(bs, hi, size);
      && |bs| < |t| && t[|bs|].size >= size
      && forall p: nat, s: nat :: Live(t, p, s) <==> Live(bs, p, s) || (p == hi + HEADER && s == t[|bs|].size)
  {
    Inside(bs, lo, hi, |bs| - 1);
    assert bs[|bs| - 1] in bs;
    forall p: nat, s: nat
      ensures Live(Grow(bs, hi, size), p, s) <==> Live(bs, p, s) || (p == hi + HEADER && s == Grow(bs, hi, size)[|bs|].size)
    {
      GrowLive(bs, hi, size, p, s);
    }
  }

  lemma FreedLive(bs: seq<Block>, hi: nat, i: nat)
    requires Tiles(bs, HEAP_START, hi) && i < |bs| && !bs[i].free
    ensures var marked := bs[i := bs[i].(free := true)];
      && (forall p: nat, s: nat :: Live(Coalesce(marked, 0), p, s) <==> Live(bs, p, s) && p != bs[i].Payload())
      && (forall p: nat, s: nat :: Live(Coalesce(marked, 0), p, s) ==> Live(marked, p, s))
  {
    var marked := bs[i := bs[i].(free := true)];
    forall p: nat, s: nat
      ensures Live(Coalesce(marked, 0), p, s) <==> Live(bs, p, s) && p != bs[i].Payload()
      ensures Live(Coalesce(marked, 0), p, s) ==> Live(marked, p, s)
    {
      ReleaseLive(bs, HEAP_START, hi, i, p, s);
      CoalesceLive(marked, 0, p, s);
    }
  }

  lemma NothingWritten(m: Words, bs: seq<Block>)
    ensures PayloadsKept(m, m, bs)
  {
  }

  lemma NoNullPayload(bs: seq<Block>)
    ensures forall s: nat :: !Live(bs, 0, s)
  {
  }

  lemma Marked(m: Words, bs: seq<Block>, hi: nat, i: nat, m': Words)
    requires Tiles(bs, HEAP_START, hi) && hi <= |m| && Spelled(m, bs) && i < |bs| && HeaderAt(m, bs, i) && m' == m[bs[i].at + 4 := 1]
    ensures var marked := bs[i := bs[i].(free := true)];
      Tiles(marked, HEAP_START, hi) && Spelled(m', marked) && PayloadsKept(m, m', marked) && ApartTo(marked, 0)
  {
    var marked := bs[i := bs[i].(free := true)];
    assert bs[i] in bs;
    forall b <- marked ensures b.size > 0 && b.size % 4 == 0 {}
    SpelledMark(m, bs, HEAP_START, hi, i, m');
    HeadersOnly(m, m', bs, HEAP_START, hi, i, bs[i].at);
    forall p: nat, s: nat | Live(marked, p, s) ensures Live(bs, p, s) {
      var k :| 0 <= k < |marked| && !marked[k].free && marked[k].Payload() == p && marked[k].size == s;
      assert bs[k] == marked[k];
    }
  }
}
