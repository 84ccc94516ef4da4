/** The kernel heap's block list as a value: kernel/heap.c:53-124. Blocks lie end to end; a header takes
    12 bytes and the payload follows it. */
module HeapBlocks {

  const HEADER := 12
  const SPARE := 16       // least payload worth splitting off
  const PAGE := 4096

  datatype Block = Block(at: nat, size: nat, free: bool) {
    function Payload(): nat { at + HEADER }
    function End(): nat { at + HEADER + size }
  }

  /** The blocks tile [lo, hi), and every size is a positive multiple of four. */
  ghost predicate Tiles(bs: seq<Block>, lo: nat, hi: nat) {
    && bs != [] && bs[0].at == lo && bs[|bs| - 1].End() == hi
    && (forall i :: 0 < i < |bs| ==> bs[i].at == bs[i - 1].End())
    && (forall b <- bs :: b.size > 0 && b.size % 4 == 0)
  }

  ghost predicate NoAdjacentFree(bs: seq<Block>) {
    forall i :: 0 < i < |bs| ==> !(bs[i - 1].free && bs[i].free)
  }

  lemma {:induction false} InOrder(bs: seq<Block>, lo: nat, hi: nat, i: nat, j: nat)
    requires Tiles(bs, lo, hi) && i < j < |bs|
    ensures bs[i].End() <= bs[j].at
  {
    if i + 1 < j { InOrder(bs, lo, hi, i, j - 1); assert bs[j].at == bs[j - 1].End(); }
  }

  lemma {:induction false} Inside(bs: seq<Block>, lo: nat, hi: nat, i: nat)
    requires Tiles(bs, lo, hi) && i < |bs|
    ensures lo <= bs[i].at && bs[i].End() <= hi
    ensures lo % 4 == 0 ==> bs[i].at % 4 == 0
  {
    if i > 0 {
      Inside(bs, lo, hi, i - 1);
      assert bs[i - 1] in bs && bs[i].at == bs[i - 1].End();
    }
    if i < |bs| - 1 { InOrder(bs, lo, hi, i, |bs| - 1); }
  }

  /** A payload handed out and not freed since. */
  ghost predicate Live(bs: seq<Block>, p: nat, size: nat) {
    exists i :: 0 <= i < |bs| && !bs[i].free && bs[i].Payload() == p && bs[i].size == size
  }

  /** Payloads in use do not overlap each other, and are aligned. */
  lemma LiveApart(bs: seq<Block>, lo: nat, hi: nat, p: nat, size: nat, q: nat, size': nat)
    requires Tiles(bs, lo, hi) && lo % 4 == 0 && Live(bs, p, size) && Live(bs, q, size')
    ensures p % 4 == 0 && lo < p && p + size <= hi && size > 0
    ensures p == q ==> size == size'
    ensures p < q ==> p + size <= q
  {
    var i :| 0 <= i < |bs| && !bs[i].free && bs[i].Payload() == p && bs[i].size == size;
    var j :| 0 <= j < |bs| && !bs[j].free && bs[j].Payload() == q && bs[j].size == size';
    Inside(bs, lo, hi, i);
    assert bs[i] in bs && bs[j] in bs;
    if i < j { InOrder(bs, lo, hi, i, j); } else if j < i { InOrder(bs, lo, hi, j, i); }
  }

  // ---------------------------------------------------------------- allocation

  function RoundedUp(size: nat): (r: nat)
    ensures size <= r < size + 4 && r % 4 == 0
  {
    (size + 3) / 4 * 4
  }

  predicate Fits(b: Block, size: nat) { b.free && b.size >= size }

  /** The first block from i on that fits, or the length of the list. */
  function FirstFit(bs: seq<Block>, size: nat, i: nat): (k: nat)
    requires i <= |bs|
    ensures i <= k <= |bs| && (k < |bs| ==> Fits(bs[k], size))
    ensures forall j :: i <= j < k ==> !Fits(bs[j], size)
    decreases |bs| - i
  {
    if i == |bs| || Fits(bs[i], size) then i else FirstFit(bs, size, i + 1)
  }

  predicate Splits(b: Block, size: nat) { b.size >= size + HEADER + SPARE }

  /** Block i taken, its tail split off when that is worth it. */
  function Take(bs: seq<Block>, i: nat, size: nat): seq<Block>
    requires i < |bs| && Fits(bs[i], size)
  {
    var b := bs[i];
    if Splits(b, size) then
      bs[..i] + [Block(b.at, size, false), Block(b.at + HEADER + size, b.size - size - HEADER, true)] + bs[i + 1..]
    else bs[i := b.(free := false)]
  }

  function PagesFor(size: nat): (n: nat)
    ensures size + HEADER <= n * PAGE < size + HEADER + PAGE
  {
    (size + HEADER + PAGE - 1) / PAGE
  }

  /** A block of whole pages added at the end. */
  function Grow(bs: seq<Block>, hi: nat, size: nat): seq<Block> {
    bs + [Block(hi, PagesFor(size) * PAGE - HEADER, false)]
  }

  lemma TakeTiles(bs: seq<Block>, lo: nat, hi: nat, i: nat, size: nat)
    requires Tiles(bs, lo, hi) && i < |bs| && Fits(bs[i], size) && size > 0 && size % 4 == 0
    ensures Tiles(Take(bs, i, size), lo, hi)
  {
    var t, b := Take(bs, i, size), bs[i];
    assert b in bs;
    if Splits(b, size) {
      forall k | 0 <= k < |t| ensures k > 0 ==> t[k].at == t[k - 1].End() {
        if k > i + 1 { assert t[k] == bs[k - 1]; }
      }
      forall c <- t ensures c.size > 0 && c.size % 4 == 0 {}
    } else {
      forall c <- t ensures c.size > 0 && c.size % 4 == 0 {}
    }
  }

  lemma TakeKeepsApart(bs: seq<Block>, i: nat, size: nat)
    requires NoAdjacentFree(bs) && i < |bs| && Fits(bs[i], size)
    ensures NoAdjacentFree(Take(bs, i, size))
  {
    var t := Take(bs, i, size);
    if Splits(bs[i], size) {
      forall k | 0 < k < |t| ensures !(t[k - 1].free && t[k].free) {
        if k > i + 1 { assert t[k] == bs[k - 1] && (k > i + 2 ==> t[k - 1] == bs[k - 2]); }
      }
    }
  }

  /** Taking a block adds its payload to the live ones and touches no other. */
  lemma TakeLive(bs: seq<Block>, i: nat, size: nat, p: nat, s: nat)
    requires i < |bs| && Fits(bs[i], size)
    ensures Live(Take(bs, i, size), p, s) <==> Live(bs, p, s) || (p == bs[i].Payload() && s == Take(bs, i, size)[i].size)
  {
    var t := Take(bs, i, size);
    if Live(bs, p, s) {
      var k :| 0 <= k < |bs| && !bs[k].free && bs[k].Payload() == p && bs[k].size == s;
      var k' := if k > i && Splits(bs[i], size) then k + 1 else k;
      assert t[k'] == bs[k];
    }
    if Live(t, p, s) {
      var k :| 0 <= k < |t| && !t[k].free && t[k].Payload() == p && t[k].size == s;
      if k != i {
        var k' := if k > i && Splits(bs[i], size) then k - 1 else k;
        assert t[k] == bs[k'];
      }
    }
    if p == bs[i].Payload() && s == t[i].size { assert !t[i].free && t[i].Payload() == p; }
  }

  lemma GrowLive(bs: seq<Block>, hi: nat, size: nat, p: nat, s: nat)
    ensures Live(Grow(bs, hi, size), p, s) <==> Live(bs, p, s) || (p == hi + HEADER && s == Grow(bs, hi, size)[|bs|].size)
  {
    var t := Grow(bs, hi, size);
    if Live(bs, p, s) {
      var k :| 0 <= k < |bs| && !bs[k].free && bs[k].Payload() == p && bs[k].size == s;
      assert t[k] == bs[k];
    }
    if Live(t, p, s) {
      var k :| 0 <= k < |t| && !t[k].free && t[k].Payload() == p && t[k].size == s;
      if k < |bs| { assert t[k] == bs[k]; }
    }
    if p == hi + HEADER && s == t[|bs|].size { assert !t[|bs|].free; }
  }

  lemma GrowTiles(bs: seq<Block>, lo: nat, hi: nat, size: nat)
    requires Tiles(bs, lo, hi) && size > 0
    ensures Tiles(Grow(bs, hi, size), lo, hi + PagesFor(size) * PAGE)
    ensures NoAdjacentFree(bs) ==> NoAdjacentFree(Grow(bs, hi, size))
    ensures Grow(bs, hi, size)[|bs|].size >= size
  {
    var t := Grow(bs, hi, size);
    forall c <- t ensures c.size > 0 && c.size % 4 == 0 {}
  }

  // ---------------------------------------------------------------- freeing

  /** Blocks i and i + 1 become one. */
  function JoinAt(bs: seq<Block>, i: nat): seq<Block>
    requires i + 1 < |bs|
  {
    bs[..i] + [Block(bs[i].at, bs[i].size + HEADER + bs[i + 1].size, bs[i].free)] + bs[i + 2..]
  }

  /** The coalescing pass from block k. */
  function Coalesce(bs: seq<Block>, k: nat): seq<Block>
    decreases |bs| - k
  {
    if k + 1 >= |bs| then bs
    else if bs[k].free && bs[k + 1].free then Coalesce(JoinAt(bs, k), k)
    else Coalesce(bs, k + 1)
  }

  /** Block i free, and joined with the free blocks beside it. */
  function Release(bs: seq<Block>, i: nat): seq<Block>
    requires i < |bs|
  {
    var b := bs[i := bs[i].(free := true)];
    var c := if i + 1 < |bs| && bs[i + 1].free then JoinAt(b, i) else b;
    if i > 0 && bs[i - 1].free then JoinAt(c, i - 1) else c
  }

  ghost predicate ApartFrom(bs: seq<Block>, k: nat) {
    forall j :: k < j < |bs| ==> !(bs[j - 1].free && bs[j].free)
  }

  ghost predicate ApartTo(bs: seq<Block>, k: nat) {
    forall j :: 0 < j <= k && j < |bs| ==> !(bs[j - 1].free && bs[j].free)
  }

  /** One pass is enough, for any list. */
  lemma {:induction false} CoalesceComplete(bs: seq<Block>, k: nat)
    requires ApartTo(bs, k)
    ensures NoAdjacentFree(Coalesce(bs, k))
    decreases |bs| - k
  {
    if k + 1 >= |bs| {
    } else if bs[k].free && bs[k + 1].free {
      var c := JoinAt(bs, k);
      forall j | 0 < j <= k && j < |c| ensures !(c[j - 1].free && c[j].free) {
        assert c[j - 1] == bs[j - 1] && c[j].free == bs[j].free;
      }
      CoalesceComplete(c, k);
    } else {
      CoalesceComplete(bs, k + 1);
    }
  }

  lemma {:induction false} CoalesceTiles(bs: seq<Block>, lo: nat, hi: nat, k: nat)
    requires Tiles(bs, lo, hi)
    ensures Tiles(Coalesce(bs, k), lo, hi)
    decreases |bs| - k
  {
    if k + 1 >= |bs| {
    } else if bs[k].free && bs[k + 1].free {
      JoinTiles(bs, lo, hi, k);
      CoalesceTiles(JoinAt(bs, k), lo, hi, k);
    } else {
      CoalesceTiles(bs, lo, hi, k + 1);
    }
  }

  lemma JoinTiles(bs: seq<Block>, lo: nat, hi: nat, k: nat)
    requires Tiles(bs, lo, hi) && k + 1 < |bs|
    ensures Tiles(JoinAt(bs, k), lo, hi)
  {
    var c := JoinAt(bs, k);
    assert bs[k] in bs && bs[k + 1] in bs && bs[k + 1].at == bs[k].End();
    forall j | 0 < j < |c| ensures c[j].at == c[j - 1].End() {
      if j > k { assert c[j] == bs[j + 1]; }
    }
    forall b <- c ensures b.size > 0 && b.size % 4 == 0 {}
  }

  /** Joining free blocks leaves the live payloads alone. */
  lemma JoinLive(bs: seq<Block>, k: nat, p: nat, s: nat)
    requires k + 1 < |bs| && bs[k].free && bs[k + 1].free
    ensures Live(JoinAt(bs, k), p, s) <==> Live(bs, p, s)
  {
    var c := JoinAt(bs, k);
    if Live(bs, p, s) {
      var i :| 0 <= i < |bs| && !bs[i].free && bs[i].Payload() == p && bs[i].size == s;
      assert c[if i < k then i else i - 1] == bs[i];
    }
    if Live(c, p, s) {
      var i :| 0 <= i < |c| && !c[i].free && c[i].Payload() == p && c[i].size == s;
      assert c[i] == bs[if i < k then i else i + 1];
    }
  }

  lemma {:induction false} CoalesceLive(bs: seq<Block>, k: nat, p: nat, s: nat)
    ensures Live(Coalesce(bs, k), p, s) <==> Live(bs, p, s)
    decreases |bs| - k
  {
    if k + 1 >= |bs| {
    } else if bs[k].free && bs[k + 1].free {
      JoinLive(bs, k, p, s);
      CoalesceLive(JoinAt(bs, k), k, p, s);
    } else {
      CoalesceLive(bs, k + 1, p, s);
    }
  }

  lemma {:induction false} CoalesceSkips(bs: seq<Block>, k: nat, m: nat)
    requires k <= m < |bs| && forall j :: k < j <= m ==> !(bs[j - 1].free && bs[j].free)
    ensures Coalesce(bs, k) == Coalesce(bs, m)
    decreases m - k
  {
    if k < m { assert !(bs[k].free && bs[k + 1].free); CoalesceSkips(bs, k + 1, m); }
  }

  lemma CoalesceStops(bs: seq<Block>, k: nat)
    requires k < |bs| && ApartFrom(bs, k)
    ensures Coalesce(bs, k) == bs
  {
    CoalesceSkips(bs, k, |bs| - 1);
  }

  /** With no two free blocks together before, the pass after freeing block i joins exactly its neighbours. */
  lemma FreeingReleases(bs: seq<Block>, i: nat)
    requires NoAdjacentFree(bs) && i < |bs|
    ensures Coalesce(bs[i := bs[i].(free := true)], 0) == Release(bs, i)
  {
    var b := bs[i := bs[i].(free := true)];
    if i > 0 && bs[i - 1].free {
      CoalesceSkips(b, 0, i - 1);
      JoinFrom(b, i - 1);
      if i + 1 < |bs| && bs[i + 1].free {
        assert JoinAt(JoinAt(b, i - 1), i - 1) == JoinAt(JoinAt(b, i), i - 1);
      }
    } else {
      CoalesceSkips(b, 0, i);
      if i + 1 < |bs| && bs[i + 1].free { JoinedStops(b, i); } else { CoalesceStops(b, i); }
    }
  }

  /** Joining a free block with the freed one after it, and then with the next if that is free too. */
  lemma JoinFrom(b: seq<Block>, k: nat)
    requires k + 1 < |b| && b[k].free && b[k + 1].free && ApartFrom(b, k + 2)
    ensures Coalesce(b, k) == if k + 2 < |b| && b[k + 2].free then JoinAt(JoinAt(b, k), k) else JoinAt(b, k)
  {
    var c := JoinAt(b, k);
    if k + 2 < |b| && b[k + 2].free {
      assert c[k + 1] == b[k + 2];
      forall j | k + 2 < j < |c| ensures !(c[j - 1].free && c[j].free) { assert c[j] == b[j + 1] && c[j - 1] == b[j]; }
      if k + 2 < |c| { assert c[k + 2] == b[k + 3]; }
      JoinedStops(c, k);
    } else {
      forall j | k < j < |c| ensures !(c[j - 1].free && c[j].free) {
        assert c[j] == b[j + 1] && (j > k + 1 ==> c[j - 1] == b[j]);
      }
      CoalesceStops(c, k);
    }
  }

  lemma JoinedStops(b: seq<Block>, k: nat)
    requires k + 1 < |b| && b[k].free && b[k + 1].free && ApartFrom(b, k + 1)
    ensures Coalesce(b, k) == JoinAt(b, k)
  {
    var c := JoinAt(b, k);
    forall j | k < j < |c| ensures !(c[j - 1].free && c[j].free) {
      assert c[j] == b[j + 1] && (j > k + 1 ==> c[j - 1] == b[j]);
      assert !(b[j].free && b[j + 1].free);
    }
    CoalesceStops(c, k);
  }

  /** Freeing a block removes its payload from the live ones and touches no other. */
  lemma ReleaseLive(bs: seq<Block>, lo: nat, hi: nat, i: nat, p: nat, s: nat)
    requires Tiles(bs, lo, hi) && i < |bs| && !bs[i].free
    ensures Live(Coalesce(bs[i := bs[i].(free := true)], 0), p, s) <==> Live(bs, p, s) && p != bs[i].Payload()
  {
    var b := bs[i := bs[i].(free := true)];
    CoalesceLive(b, 0, p, s);
    if Live(bs, p, s) {
      var k :| 0 <= k < |bs| && !bs[k].free && bs[k].Payload() == p && bs[k].size == s;
      if k < i { InOrder(bs, lo, hi, k, i); } else if i < k { InOrder(bs, lo, hi, i, k); }
      if k != i { assert b[k] == bs[k]; }
    }
    if Live(b, p, s) {
      var k :| 0 <= k < |b| && !b[k].free && b[k].Payload() == p && b[k].size == s;
      assert k != i && b[k] == bs[k];
      if k < i { InOrder(bs, lo, hi, k, i); } else { InOrder(bs, lo, hi, i, k); }
    }
  }

  // ---------------------------------------------------------------- freeing what was just allocated

  /** Freeing a block just taken gives back the very list it was taken from. */
  lemma TakeThenRelease(bs: seq<Block>, i: nat, size: nat)
    requires NoAdjacentFree(bs) && i < |bs| && Fits(bs[i], size)
    ensures Release(Take(bs, i, size), i) == bs
  {
    var t := Take(bs, i, size);
    assert i > 0 ==> t[i - 1] == bs[i - 1] && !bs[i - 1].free;
    if Splits(bs[i], size) {
      var b := t[i := t[i].(free := true)];
      assert b[..i] == bs[..i] && b[i + 2..] == bs[i + 1..];
      assert JoinAt(b, i)[i] == bs[i];
    } else {
      assert i + 1 < |bs| ==> t[i + 1] == bs[i + 1] && !bs[i + 1].free;
      assert t[i := t[i].(free := true)] == bs;
    }
  }

  /** After growth, what is left is the old list with the new pages free at its end. */
  lemma GrowThenRelease(bs: seq<Block>, lo: nat, hi: nat, size: nat)
    requires Tiles(bs, lo, hi) && size > 0
    ensures var last, more := bs[|bs| - 1], PagesFor(size) * PAGE;
      Release(Grow(bs, hi, size), |bs|) ==
        if last.free then bs[|bs| - 1 := last.(size := last.size + more)] else bs + [Block(hi, more - HEADER, true)]
  {
    var t := Grow(bs, hi, size);
    assert t[|bs| := t[|bs|].(free := true)] == bs + [t[|bs|].(free := true)];
  }

  /** The block chosen is the lowest-addressed that fits. */
  lemma LowestFit(bs: seq<Block>, lo: nat, hi: nat, size: nat, j: nat)
    requires Tiles(bs, lo, hi) && j < |bs| && Fits(bs[j], size)
    ensures FirstFit(bs, size, 0) < |bs| && bs[FirstFit(bs, size, 0)].at <= bs[j].at
  {
    if FirstFit(bs, size, 0) < j { InOrder(bs, lo, hi, FirstFit(bs, size, 0), j); }
  }

  // ---------------------------------------------------------------- histories

  datatype Request = Malloc(size: nat) | Free(ptr: nat)

  datatype State = State(blocks: seq<Block>, end: nat)

  function Allocated(s: State, size: nat): State
    requires size > 0
  {
    var i := FirstFit(s.blocks, size, 0);
    if i < |s.blocks| then State(Take(s.blocks, i, size), s.end) else State(Grow(s.blocks, s.end, size), s.end + PagesFor(size) * PAGE)
  }

  /** The position of the live block with a payload address, or the length of the list. */
  function LiveAt(bs: seq<Block>, p: nat, i: nat): (k: nat)
    requires i <= |bs|
    ensures i <= k <= |bs| && (k < |bs| ==> !bs[k].free && bs[k].Payload() == p)
    ensures forall j :: i <= j < k ==> bs[j].free || bs[j].Payload() != p
    decreases |bs| - i
  {
    if i == |bs| || (!bs[i].free && bs[i].Payload() == p) then i else LiveAt(bs, p, i + 1)
  }

  function Next(s: State, r: Request): State {
    match r
    case Malloc(size) => if size == 0 then s else Allocated(s, RoundedUp(size))
    case Free(ptr) =>
      var i := LiveAt(s.blocks, ptr, 0);
      if i == |s.blocks| then s else s.(blocks := Release(s.blocks, i))
  }

  function After(s: State, rs: seq<Request>): State
    decreases |rs|
  {
    if rs == [] then s else After(Next(s, rs[0]), rs[1..])
  }

  ghost predicate Sound(s: State, lo: nat) { Tiles(s.blocks, lo, s.end) && NoAdjacentFree(s.blocks) }

  /** One request keeps the blocks tiled and apart, and touches no live block but the one it frees. */
  lemma NextSound(s: State, r: Request, lo: nat)
    requires Sound(s, lo)
    ensures Sound(Next(s, r), lo)
    ensures forall p: nat, n: nat :: Live(s.blocks, p, n) && r != Free(p) ==> Live(Next(s, r).blocks, p, n)
  {
    var bs := s.blocks;
    match r
    case Malloc(request) =>
      var size := RoundedUp(request);
      if request > 0 {
        var i := FirstFit(bs, size, 0);
        if i < |bs| {
          TakeTiles(bs, lo, s.end, i, size);
          TakeKeepsApart(bs, i, size);
          forall p: nat, n: nat ensures Live(bs, p, n) ==> Live(Take(bs, i, size), p, n) { TakeLive(bs, i, size, p, n); }
        } else {
          GrowTiles(bs, lo, s.end, size);
          forall p: nat, n: nat ensures Live(bs, p, n) ==> Live(Grow(bs, s.end, size), p, n) { GrowLive(bs, s.end, size, p, n); }
        }
      }
    case Free(ptr) =>
      var i := LiveAt(bs, ptr, 0);
      if i < |bs| {
        ReleaseSound(bs, lo, s.end, i);
      }
  }

  lemma ReleaseSound(bs: seq<Block>, lo: nat, hi: nat, i: nat)
    requires Tiles(bs, lo, hi) && NoAdjacentFree(bs) && i < |bs| && !bs[i].free
    ensures Tiles(Release(bs, i), lo, hi) && NoAdjacentFree(Release(bs, i))
    ensures forall p: nat, n: nat :: Live(Release(bs, i), p, n) <==> Live(bs, p, n) && p != bs[i].Payload()
  {
    var marked := bs[i := bs[i].(free := true)];
    assert bs[i] in bs;
    assert Tiles(marked, lo, hi);
    FreeingReleases(bs, i);
    CoalesceTiles(marked, lo, hi, 0);
    CoalesceComplete(marked, 0);
    forall p: nat, n: nat ensures Live(Release(bs, i), p, n) <==> Live(bs, p, n) && p != bs[i].Payload() { ReleaseLive(bs, lo, hi, i, p, n); }
  }

  /** Over any history: the blocks stay tiled with no two free ones together, and what was handed out and
      not freed is still there, at its place and of its size. */
  lemma {:induction false} HistorySound(s: State, rs: seq<Request>, lo: nat)
    requires Sound(s, lo)
    ensures Sound(After(s, rs), lo)
    ensures forall p: nat, n: nat :: Live(s.blocks, p, n) && Free(p) !in rs ==> Live(After(s, rs).blocks, p, n)
    decreases |rs|
  {
    if rs != [] {
      NextSound(s, rs[0], lo);
      HistorySound(Next(s, rs[0]), rs[1..], lo);
      forall p: nat, n: nat | Live(s.blocks, p, n) && Free(p) !in rs ensures Live(After(s, rs).blocks, p, n) {
        assert rs[0] in rs && forall r <- rs[1..] :: r in rs;
      }
    }
  }

  /** kfree of what kmalloc has just returned, without growth, restores the list exactly. */
  lemma MallocThenFree(s: State, size: nat, lo: nat)
    requires Sound(s, lo) && size > 0 && FirstFit(s.blocks, RoundedUp(size), 0) < |s.blocks|
    ensures Next(Next(s, Malloc(size)), Free(s.blocks[FirstFit(s.blocks, RoundedUp(size), 0)].Payload())) == s
  {
    var n := RoundedUp(size);
    var i := FirstFit(s.blocks, n, 0);
    var t, p := Take(s.blocks, i, n), s.blocks[i].Payload();
    TakeTiles(s.blocks, lo, s.end, i, n);
    assert t[i].Payload() == p && !t[i].free;
    var k := LiveAt(t, p, 0);
    if k < i { InOrder(t, lo, s.end, k, i); }
    TakeThenRelease(s.blocks, i, n);
  }
}
