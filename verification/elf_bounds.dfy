/** How far the ELF loader of kernel/elf.c reads. It is given no length: what lies past the end of a file in memory is taken
    for a part of it. */
module ElfBounds {
  import opened Pmm
  import opened PageTables
  import opened Elf
  import opened Paging
  import opened UserAccess

  const MAGIC: seq<bv8> := [0x7F, 0x45, 0x4C, 0x46, 1]
  const LOAD_KIND: seq<bv8> := [1, 0, 0, 0]

  function HeaderOffset(elf: seq<bv8>, i: nat): nat { Le32(elf, 28) + 32 * i }

  /** A byte inside the file already decides that it is no 32-bit ELF file, or that a segment is not to be loaded. */
  predicate NoElfInside(elf: seq<bv8>) { exists i :: 0 <= i < 5 && i < |elf| && elf[i] != MAGIC[i] }
  predicate SkippedInside(elf: seq<bv8>, at: nat) { exists j :: 0 <= j < 4 && at + j < |elf| && elf[at + j] != LOAD_KIND[j] }

  predicate CopiedInside(elf: seq<bv8>, seg: Segment, page: nat) {
    CopyStart(seg, page) < CopyEnd(seg, page) ==> CopySource(seg, page) + CopyEnd(seg, page) - CopyStart(seg, page) <= |elf|
  }

  predicate SegmentInside(elf: seq<bv8>, i: nat) {
    var seg := SegmentAt(elf, i);
    SkippedInside(elf, HeaderOffset(elf, i)) ||
    (HeaderOffset(elf, i) + 24 <= |elf| && forall p :: 0 <= p < PageCount(seg) ==> CopiedInside(elf, seg, PageAddress(seg, p)))
  }

  /** The file header, the headers of all segments, and what is copied for those to be loaded lie inside the file. */
  predicate Contained(elf: seq<bv8>) {
    NoElfInside(elf) || (|elf| >= 46 && forall i :: 0 <= i < SegmentCount(elf) ==> SegmentInside(elf, i))
  }

  /** The loader makes the same of two files. */
  ghost predicate SameLoad(e: seq<bv8>, f: seq<bv8>) {
    && (IsElf32(e) <==> IsElf32(f))
    && (IsElf32(e) ==> EntryPoint(e) == EntryPoint(f) && PagesToLoad(e, SegmentCount(e)) == PagesToLoad(f, SegmentCount(f)))
  }

  ghost predicate AgreeOn(e: seq<bv8>, f: seq<bv8>, lo: nat, hi: nat) {
    forall i: nat :: lo <= i < hi ==> FileByte(e, i) == FileByte(f, i)
  }

  // ---------------------------------------------------------------- files that agree

  lemma SameHeader(e: seq<bv8>, f: seq<bv8>)
    requires AgreeOn(e, f, 0, 46)
    ensures IsElf32(e) == IsElf32(f) && EntryPoint(e) == EntryPoint(f) && SegmentCount(e) == SegmentCount(f)
    ensures Le32(e, 28) == Le32(f, 28)
  {
  }

  lemma SameSegment(e: seq<bv8>, f: seq<bv8>, i: nat)
    requires Le32(e, 28) == Le32(f, 28) && AgreeOn(e, f, HeaderOffset(e, i), HeaderOffset(e, i) + 24)
    ensures SegmentAt(e, i) == SegmentAt(f, i)
  {
  }

  lemma Kind(elf: seq<bv8>, i: nat)
    ensures SegmentAt(elf, i).kind == PT_LOAD <==>
      forall j :: 0 <= j < 4 ==> FileByte(elf, HeaderOffset(elf, i) + j) == LOAD_KIND[j]
  {
    var at := HeaderOffset(elf, i);
    assert LOAD_KIND[0] == 1 && LOAD_KIND[1] == 0 && LOAD_KIND[2] == 0 && LOAD_KIND[3] == 0;
    if forall j :: 0 <= j < 4 ==> FileByte(elf, at + j) == LOAD_KIND[j] {
      assert FileByte(elf, at + 0) == 1 && FileByte(elf, at + 1) == 0 && FileByte(elf, at + 2) == 0 && FileByte(elf, at + 3) == 0;
    }
  }

  lemma SamePageImage(e: seq<bv8>, f: seq<bv8>, seg: Segment, page: nat)
    requires CopiedInside(e, seg, page) && AgreeOn(e, f, 0, |e|)
    ensures PageImage(e, seg, page) == PageImage(f, seg, page)
  {
    hide FileByte, CopyStart, CopyEnd, CopySource;
  }

  lemma NotLoaded(elf: seq<bv8>, i: nat)
    requires SkippedInside(elf, HeaderOffset(elf, i))
    ensures SegmentAt(elf, i).kind != PT_LOAD
  {
    Kind(elf, i);
    hide SegmentAt;
    var at := HeaderOffset(elf, i);
    var j :| 0 <= j < 4 && at + j < |elf| && elf[at + j] != LOAD_KIND[j];
    assert FileByte(elf, at + j) != LOAD_KIND[j];
  }

  lemma SkippedStays(elf: seq<bv8>, more: seq<bv8>, at: nat)
    requires SkippedInside(elf, at)
    ensures SkippedInside(elf + more, at)
  {
    var j :| 0 <= j < 4 && at + j < |elf| && elf[at + j] != LOAD_KIND[j];
    assert (elf + more)[at + j] == elf[at + j];
  }

  lemma SamePages(e: seq<bv8>, f: seq<bv8>, seg: Segment)
    requires AgreeOn(e, f, 0, |e|) && forall p :: 0 <= p < PageCount(seg) ==> CopiedInside(e, seg, PageAddress(seg, p))
    ensures SegmentPages(e, seg) == SegmentPages(f, seg)
  {
    hide PageCount, PageAddress, PageImage, CopiedInside, AgreeOn;
    forall p: nat | p < PageCount(seg)
      ensures SegmentPages(f, seg)[p] == SegmentPages(e, seg)[p]
    {
      SamePageImage(e, f, seg, PageAddress(seg, p));
    }
  }

  /** Whatever follows the file, a segment inside it is the same. */
  lemma SegmentStays(elf: seq<bv8>, more: seq<bv8>, i: nat)
    requires |elf| >= 46 && SegmentInside(elf, i)
    ensures var full := elf + more;
      && (SegmentAt(full, i).kind == PT_LOAD <==> SegmentAt(elf, i).kind == PT_LOAD)
      && (SegmentAt(elf, i).kind == PT_LOAD ==> SegmentPages(full, SegmentAt(full, i)) == SegmentPages(elf, SegmentAt(elf, i)))
  {
    hide Le32, SegmentAt, SegmentPages, PageCount, PageAddress, CopiedInside;
    var full := elf + more;
    assert AgreeOn(elf, full, 0, |elf|);
    SameHeader(elf, full);
    if SkippedInside(elf, HeaderOffset(elf, i)) {
      SkippedStays(elf, more, HeaderOffset(elf, i));
      NotLoaded(elf, i);
      NotLoaded(full, i);
    } else {
      SameSegment(elf, full, i);
      hide FileByte, AgreeOn;
      SamePages(elf, full, SegmentAt(elf, i));
    }
  }

  lemma {:induction false} PagesStay(elf: seq<bv8>, more: seq<bv8>, n: nat)
    requires |elf| >= 46 && forall i :: 0 <= i < n ==> SegmentInside(elf, i)
    ensures PagesToLoad(elf + more, n) == PagesToLoad(elf, n)
  {
    hide SegmentAt, SegmentInside, SegmentPages;
    if n > 0 {
      PagesStay(elf, more, n - 1);
      SegmentStays(elf, more, n - 1);
    }
  }

  lemma NoElf(elf: seq<bv8>)
    requires NoElfInside(elf)
    ensures !IsElf32(elf)
  {
    var i :| 0 <= i < 5 && i < |elf| && elf[i] != MAGIC[i];
    assert FileByte(elf, i) == elf[i];
  }

  lemma NoElfStays(elf: seq<bv8>, more: seq<bv8>)
    requires NoElfInside(elf)
    ensures NoElfInside(elf + more)
  {
    var i :| 0 <= i < 5 && i < |elf| && elf[i] != MAGIC[i];
    assert (elf + more)[i] == elf[i];
  }

  /** Nothing past the end of a contained file matters. */
  lemma ContainedStays(elf: seq<bv8>, more: seq<bv8>)
    requires Contained(elf)
    ensures SameLoad(elf, elf + more)
  {
    if NoElfInside(elf) {
      NoElf(elf);
      NoElfStays(elf, more);
      NoElf(elf + more);
    } else {
      SameHeader(elf, elf + more);
      hide SegmentInside, IsElf32, EntryPoint, SegmentCount, PagesToLoad;
      PagesStay(elf, more, SegmentCount(elf));
    }
  }

  // ---------------------------------------------------------------- files that are not contained

  function LoadCount(elf: seq<bv8>, i: nat): nat {
    if SegmentAt(elf, i).kind == PT_LOAD then PageCount(SegmentAt(elf, i)) else 0
  }

  /** Two files of which only segment i has different pages. */
  lemma {:induction false} LengthsDiffer(e: seq<bv8>, f: seq<bv8>, n: nat, i: nat)
    requires forall j: nat :: j < n && j != i ==> LoadCount(e, j) == LoadCount(f, j)
    ensures |PagesToLoad(e, n)| - |PagesToLoad(f, n)| == if i < n then LoadCount(e, i) - LoadCount(f, i) else 0
  {
    hide SegmentAt, PageCount, PageAddress, PageImage;
    if n > 0 {
      LengthsDiffer(e, f, n - 1, i);
      assert |PagesToLoad(e, n)| == |PagesToLoad(e, n - 1)| + LoadCount(e, n - 1);
      assert |PagesToLoad(f, n)| == |PagesToLoad(f, n - 1)| + LoadCount(f, n - 1);
    }
  }

  /** Files that differ in one byte of the header of one segment, so that it has another number of pages. */
  lemma HeaderMatters(e: seq<bv8>, d: nat, b: bv8, i: nat)
    requires IsElf32(e) && 46 <= d < |e| && i < SegmentCount(e) && HeaderOffset(e, i) <= d < HeaderOffset(e, i) + 24
    requires LoadCount(e, i) != LoadCount(e[d := b], i)
    ensures !SameLoad(e, e[d := b])
  {
    var f := e[d := b];
    SameHeader(e, f);
    forall j: nat | j != i ensures LoadCount(e, j) == LoadCount(f, j) { SameSegment(e, f, j); }
    hide LoadCount, IsElf32, HeaderOffset;
    LengthsDiffer(e, f, SegmentCount(e), i);
  }

  function Zeros(n: nat): seq<bv8> { seq(n, _ => 0) }

  /** A file header's worth of bytes, and a segment header after it for one byte of memory at address 0. */
  function OnePageHeader(): seq<bv8> { LOAD_KIND + Zeros(16) + LOAD_KIND }

  lemma OnePageBytes(j: nat)
    requires j < 24
    ensures OnePageHeader()[j] == if j == 0 || j == 20 then 1 else 0
  {
  }

  lemma OnePageCounts(elf: seq<bv8>, i: nat)
    requires forall j :: 0 <= j < 24 ==> FileByte(elf, HeaderOffset(elf, i) + j) == OnePageHeader()[j]
    ensures LoadCount(elf, i) == 1
  {
    forall j: nat | j < 24
      ensures OnePageHeader()[j] == if j == 0 || j == 20 then 1 else 0
    {
      OnePageBytes(j);
    }
    hide FileByte, OnePageHeader, PageCount, Le32;
    var at := HeaderOffset(elf, i);
    WordAt(elf, at, 0, 1);
    WordAt(elf, at, 8, 0);
    WordAt(elf, at, 20, 1);
    OnePage(SegmentAt(elf, i));
  }

  lemma OnePage(seg: Segment)
    requires seg.vaddr == 0 && seg.memsz == 1
    ensures PageCount(seg) == 1
  {
  }

  lemma WordAt(elf: seq<bv8>, at: nat, k: nat, low: bv8)
    requires k <= 20 && forall j :: 0 <= j < 24 ==> FileByte(elf, at + j) == OnePageHeader()[j]
    requires OnePageHeader()[k] == low && OnePageHeader()[k + 1] == 0 && OnePageHeader()[k + 2] == 0 && OnePageHeader()[k + 3] == 0
    ensures Le32(elf, at + k) == low as nat
  {
    hide FileByte, OnePageHeader;
    assert FileByte(elf, at + k) == low;
    assert FileByte(elf, at + (k + 1)) == 0;
    assert FileByte(elf, at + (k + 2)) == 0;
    assert FileByte(elf, at + (k + 3)) == 0;
  }

  /** The kind of a segment is read past the end of the file. */
  lemma KindOutside(elf: seq<bv8>, i: nat) returns (e: seq<bv8>, f: seq<bv8>)
    requires IsElf32(elf) && |elf| >= 46 && i < SegmentCount(elf)
    requires HeaderOffset(elf, i) + 4 > |elf| && !SkippedInside(elf, HeaderOffset(elf, i))
    ensures elf <= e && elf <= f && !SameLoad(e, f)
  {
    hide Le32, Le16;
    var at := HeaderOffset(elf, i);
    e := seq(at + 24, k requires 0 <= k < at + 24 => if k < |elf| then elf[k] else if k >= at then OnePageHeader()[k - at] else 0);
    f := e[at + 3 := 1];
    SameHeader(elf, e);
    SameHeader(e, f);
    forall j | 0 <= j < 24 ensures FileByte(e, at + j) == OnePageHeader()[j] { assert at + j < |e|; }
    assert FileByte(f, at + 3) != LOAD_KIND[3];
    hide FileByte, SkippedInside, OnePageHeader, IsElf32, SegmentAt;
    OnePageCounts(e, i);
    Kind(f, i);
    HeaderMatters(e, at + 3, 1, i);
  }

  lemma ShiftedPage(x: nat, y: nat)
    requires y == x + 0x100_0000
    ensures PageDown(y) == PageDown(x) + 0x100_0000
  {
    assert y % FRAME_SIZE == x % FRAME_SIZE;
  }

  lemma MorePages(s: Segment, t: Segment)
    requires s.memsz < 0x100_0000 && t.memsz == s.memsz + 0x100_0000 && t.vaddr == s.vaddr < 0x1_0000_0000
    ensures PageCount(s) != PageCount(t)
  {
    var x := s.vaddr + s.memsz + FRAME_SIZE - 1;
    var u, v := U32(x), U32(x + 0x100_0000);
    assert v == u + 0x100_0000 || u == v + 0xFF00_0000;
    if v == u + 0x100_0000 {
      ShiftedPage(u, v);
      assert EndPage(t) == EndPage(s) + 0x100_0000;
    } else {
      ShiftedPage(u, u + 0x100_0000);
      assert PageDown(u) == PageDown(v) + 0xFF00_0000;
      assert EndPage(s) == EndPage(t) + 0xFF00_0000;
    }
  }

  /** The size of a segment is read past the end of the file. */
  lemma SizeOutside(elf: seq<bv8>, i: nat) returns (e: seq<bv8>, f: seq<bv8>)
    requires IsElf32(elf) && |elf| >= 46 && i < SegmentCount(elf)
    requires HeaderOffset(elf, i) + 4 <= |elf| < HeaderOffset(elf, i) + 24 && !SkippedInside(elf, HeaderOffset(elf, i))
    ensures elf <= e && elf <= f && !SameLoad(e, f)
  {
    hide Le32, Le16;
    var at := HeaderOffset(elf, i);
    e := elf + Zeros(at + 24 - |elf|);
    f := e[at + 23 := 1];
    SameHeader(elf, e);
    SameHeader(e, f);
    forall j | 0 <= j < 4
      ensures FileByte(e, at + j) == LOAD_KIND[j] && FileByte(f, at + j) == LOAD_KIND[j]
    {
      assert elf[at + j] == LOAD_KIND[j];
    }
    Kind(e, i);
    Kind(f, i);
    TopByte(e, at);
    hide FileByte, IsElf32, SkippedInside, PageCount;
    MorePages(SegmentAt(e, i), SegmentAt(f, i));
    HeaderMatters(e, at + 23, 1, i);
  }

  lemma TopByte(e: seq<bv8>, at: nat)
    requires at + 24 <= |e| && e[at + 23] == 0
    ensures Le32(e[at + 23 := 1], at + 20) == Le32(e, at + 20) + 0x100_0000 && Le32(e, at + 20) < 0x100_0000
    ensures Le32(e[at + 23 := 1], at + 8) == Le32(e, at + 8) < 0x1_0000_0000
  {
  }

  /** Equal pages in all mean equal pages of every segment. */
  lemma {:induction false} PagesApart(e: seq<bv8>, f: seq<bv8>, n: nat, i: nat)
    requires i < n && PagesToLoad(e, n) == PagesToLoad(f, n) && SegmentAt(e, i).kind == SegmentAt(f, i).kind == PT_LOAD
    requires forall j: nat :: j < n ==> LoadCount(e, j) == LoadCount(f, j)
    ensures SegmentPages(e, SegmentAt(e, i)) == SegmentPages(f, SegmentAt(f, i))
  {
    hide SegmentAt, PageCount, PageAddress, PageImage;
    LengthsDiffer(e, f, n - 1, n);
    var before := |PagesToLoad(e, n - 1)|;
    assert PagesToLoad(e, n)[..before] == PagesToLoad(e, n - 1) && PagesToLoad(f, n)[..before] == PagesToLoad(f, n - 1);
    if i < n - 1 { PagesApart(e, f, n - 1, i); }
    else {
      assert PagesToLoad(e, n)[before..] == SegmentPages(e, SegmentAt(e, i));
      assert PagesToLoad(f, n)[before..] == SegmentPages(f, SegmentAt(f, i));
    }
  }

  lemma LastCopied(e: seq<bv8>, f: seq<bv8>, seg: Segment, page: nat)
    requires CopyStart(seg, page) < CopyEnd(seg, page)
    requires var d := CopySource(seg, page) + CopyEnd(seg, page) - CopyStart(seg, page) - 1; FileByte(e, d) != FileByte(f, d)
    ensures PageImage(e, seg, page) != PageImage(f, seg, page)
  {
    CopyInside(seg, page);
    hide FileByte, CopyStart, CopyEnd, CopySource;
    var o := CopyEnd(seg, page) - 1 - page;
    assert PageImage(e, seg, page)[o] != PageImage(f, seg, page)[o];
  }

  /** The headers that matter lie inside a file, whatever follows it. */
  ghost predicate HeadersInside(elf: seq<bv8>) {
    forall i: nat :: i < SegmentCount(elf) ==> SkippedInside(elf, HeaderOffset(elf, i)) || HeaderOffset(elf, i) + 24 <= |elf|
  }

  lemma SameCount(elf: seq<bv8>, more: seq<bv8>, i: nat)
    requires |elf| >= 46 && (SkippedInside(elf, HeaderOffset(elf, i)) || HeaderOffset(elf, i) + 24 <= |elf|)
    ensures LoadCount(elf + more, i) == LoadCount(elf, i)
    ensures !SkippedInside(elf, HeaderOffset(elf, i)) ==> SegmentAt(elf + more, i) == SegmentAt(elf, i)
  {
    hide Le32, SegmentAt, PageCount;
    var full := elf + more;
    assert AgreeOn(elf, full, 0, |elf|);
    SameHeader(elf, full);
    if SkippedInside(elf, HeaderOffset(elf, i)) {
      SkippedStays(elf, more, HeaderOffset(elf, i));
      NotLoaded(elf, i);
      NotLoaded(full, i);
    } else {
      SameSegment(elf, full, i);
    }
  }

  lemma NotSkipped(elf: seq<bv8>, i: nat)
    requires !SkippedInside(elf, HeaderOffset(elf, i)) && HeaderOffset(elf, i) + 4 <= |elf|
    ensures SegmentAt(elf, i).kind == PT_LOAD
  {
    Kind(elf, i);
    hide SegmentAt;
    var at := HeaderOffset(elf, i);
    forall j | 0 <= j < 4 ensures FileByte(elf, at + j) == LOAD_KIND[j] { assert elf[at + j] == LOAD_KIND[j]; }
  }

  /** What is copied for a segment is read past the end of the file. */
  lemma CopyOutside(elf: seq<bv8>, i: nat, p: nat) returns (e: seq<bv8>, f: seq<bv8>)
    requires IsElf32(elf) && |elf| >= 46 && HeadersInside(elf) && i < SegmentCount(elf)
    requires !SkippedInside(elf, HeaderOffset(elf, i)) && p < PageCount(SegmentAt(elf, i))
    requires !CopiedInside(elf, SegmentAt(elf, i), PageAddress(SegmentAt(elf, i), p))
    ensures elf <= e && elf <= f && !SameLoad(e, f)
  {
    hide Le32, Le16, SegmentAt, PageCount, PageAddress, CopyStart, CopyEnd, CopySource, PageImage;
    var seg := SegmentAt(elf, i);
    var page := PageAddress(seg, p);
    var d := CopySource(seg, page) + CopyEnd(seg, page) - CopyStart(seg, page) - 1;
    var zero, one := Zeros(d + 1 - |elf|), Zeros(d - |elf|) + [1];
    e, f := elf + zero, elf + one;
    SameHeader(elf, e);
    SameHeader(elf, f);
    forall j: nat | j < SegmentCount(elf)
      ensures LoadCount(e, j) == LoadCount(f, j)
    {
      SameCount(elf, zero, j);
      SameCount(elf, one, j);
    }
    SameCount(elf, zero, i);
    SameCount(elf, one, i);
    NotSkipped(elf, i);
    LastCopied(e, f, seg, page);
    hide FileByte, IsElf32, SkippedInside, HeadersInside, CopiedInside, HeaderOffset, LoadCount;
    assert SegmentPages(e, seg)[p].bytes != SegmentPages(f, seg)[p].bytes;
    if PagesToLoad(e, SegmentCount(elf)) == PagesToLoad(f, SegmentCount(elf)) { PagesApart(e, f, SegmentCount(elf), i); }
  }

  /** The file ends before its identification or its header does. */
  lemma HeaderCut(elf: seq<bv8>) returns (e: seq<bv8>, f: seq<bv8>)
    requires !NoElfInside(elf) && |elf| < 28
    ensures elf <= e && elf <= f && !SameLoad(e, f)
  {
    if |elf| < 5 {
      e, f := elf + MAGIC[|elf|..], elf + Zeros(5 - |elf|);
      assert f[4] == 0;
      Magic(e);
    } else {
      e := elf + Zeros(28 - |elf|);
      f := e[27 := 1];
      Magic(elf);
      Magic(e);
      Magic(f);
      hide IsElf32;
    }
  }

  lemma Magic(elf: seq<bv8>)
    requires |elf| >= 5 && forall i :: 0 <= i < 5 ==> elf[i] == MAGIC[i]
    ensures IsElf32(elf)
  {
    assert elf[0] == MAGIC[0] && elf[1] == MAGIC[1] && elf[2] == MAGIC[2] && elf[3] == MAGIC[3] && elf[4] == MAGIC[4];
  }

  /** The file ends before the number of its segments. */
  lemma CountCut(elf: seq<bv8>) returns (e: seq<bv8>, f: seq<bv8>)
    requires !NoElfInside(elf) && 28 <= |elf| < 46
    ensures elf <= e && elf <= f && !SameLoad(e, f)
  {
    var full := elf + Zeros(45 - |elf|) + [0xFF];
    assert |full| == 46 && full[45] == 0xFF;
    Magic(full);
    assert SegmentCount(full) > 2;
    hide FileByte, Le32;
    assert HeaderOffset(full, 2) >= 64;
    e, f := KindOutside(full, 2);
  }

  /** A file that is not contained can be continued in two ways of which the loader makes something different. */
  lemma Outside(elf: seq<bv8>) returns (e: seq<bv8>, f: seq<bv8>)
    requires !Contained(elf)
    ensures elf <= e && elf <= f && !SameLoad(e, f)
  {
    hide Le32, SegmentAt, PageCount, PageAddress, CopiedInside, SameLoad;
    if |elf| < 28 { e, f := HeaderCut(elf); return; }
    if |elf| < 46 { e, f := CountCut(elf); return; }
    Magic(elf);
    var i: nat :| i < SegmentCount(elf) && !SegmentInside(elf, i);
    if HeaderOffset(elf, i) + 4 > |elf| { e, f := KindOutside(elf, i); return; }
    if HeaderOffset(elf, i) + 24 > |elf| { e, f := SizeOutside(elf, i); return; }
    if !HeadersInside(elf) {
      var j: nat :| j < SegmentCount(elf) && !SkippedInside(elf, HeaderOffset(elf, j)) && HeaderOffset(elf, j) + 24 > |elf|;
      if HeaderOffset(elf, j) + 4 > |elf| { e, f := KindOutside(elf, j); } else { e, f := SizeOutside(elf, j); }
      return;
    }
    var p: nat :| p < PageCount(SegmentAt(elf, i)) && !CopiedInside(elf, SegmentAt(elf, i), PageAddress(SegmentAt(elf, i), p));
    e, f := CopyOutside(elf, i, p);
  }

  /** What the loader makes of a file does not depend on what follows it in memory, if and only if the file is contained. */
  lemma ContainedExactly(elf: seq<bv8>)
    ensures Contained(elf) <==> forall more: seq<bv8> :: SameLoad(elf, elf + more)
  {
    hide Contained, SameLoad;
    if Contained(elf) {
      forall more: seq<bv8> ensures SameLoad(elf, elf + more) { ContainedStays(elf, more); }
    } else {
      var e, f := Outside(elf);
      assert e == elf + e[|elf|..] && f == elf + f[|elf|..];
      if SameLoad(elf, e) && SameLoad(elf, f) { Between(elf, e, f); }
    }
  }

  lemma Between(elf: seq<bv8>, e: seq<bv8>, f: seq<bv8>)
    requires SameLoad(elf, e) && SameLoad(elf, f)
    ensures SameLoad(e, f)
  {
  }

  // ---------------------------------------------------------------- the bytes of a contained file

  /** Every byte of a page loaded from a contained file is a zero or a byte of the file. */
  lemma {:induction false} PageFromFile(elf: seq<bv8>, n: nat, k: nat, o: nat)
    requires |elf| >= 46 && (forall i :: 0 <= i < n ==> SegmentInside(elf, i)) && k < |PagesToLoad(elf, n)| && o < FRAME_SIZE
    ensures var bytes := PagesToLoad(elf, n)[k].bytes;
      |bytes| == FRAME_SIZE && (bytes[o] == 0 || exists i :: 0 <= i < |elf| && bytes[o] == elf[i])
  {
    hide SegmentAt, PageCount, PageAddress, PageImage, SegmentInside;
    var before := PagesToLoad(elf, n - 1);
    if k < |before| { PageFromFile(elf, n - 1, k, o); }
    else { ImageFromFile(elf, n - 1, k - |before|, o); }
  }

  lemma ImageFromFile(elf: seq<bv8>, i: nat, p: nat, o: nat)
    requires SegmentInside(elf, i) && SegmentAt(elf, i).kind == PT_LOAD && p < PageCount(SegmentAt(elf, i)) && o < FRAME_SIZE
    ensures var seg := SegmentAt(elf, i); var byte := PageImage(elf, seg, PageAddress(seg, p))[o];
      byte == 0 || exists k :: 0 <= k < |elf| && byte == elf[k]
  {
    hide SegmentAt, PageCount, PageAddress, CopiedInside;
    if SkippedInside(elf, HeaderOffset(elf, i)) { NotLoaded(elf, i); }
    hide SkippedInside, PageImage;
    CopiedByte(elf, SegmentAt(elf, i), PageAddress(SegmentAt(elf, i), p), o);
  }

  lemma CopiedByte(elf: seq<bv8>, seg: Segment, page: nat, o: nat)
    requires CopiedInside(elf, seg, page) && o < FRAME_SIZE
    ensures PageImage(elf, seg, page)[o] == 0 || exists k :: 0 <= k < |elf| && PageImage(elf, seg, page)[o] == elf[k]
  {
    hide CopyStart, CopyEnd, CopySource;
    if CopyStart(seg, page) <= page + o < CopyEnd(seg, page) {
      var k := CopySource(seg, page) + (page + o - CopyStart(seg, page));
      assert PageImage(elf, seg, page)[o] == FileByte(elf, k);
      assert FileByte(elf, k) == elf[k];
    }
  }

  /** The image theorem for a contained file: with distinct user pages and no wrap, every byte of a loaded segment is the
      file's own, or zero. */
  lemma LoadedFromFile(image: Image, dir: nat, elf: seq<bv8>, i: nat, a: nat)
    requires Contained(elf) && IsElf32(elf) && PagesDistinct(PagesToLoad(elf, SegmentCount(elf)))
    requires i < SegmentCount(elf) && SegmentAt(elf, i).kind == PT_LOAD && NoWrap(SegmentAt(elf, i))
    requires FirstPage(SegmentAt(elf, i)) <= a < EndPage(SegmentAt(elf, i))
    ensures var seg, loaded := SegmentAt(elf, i), ImageWith(image, dir, PagesToLoad(elf, SegmentCount(elf)));
      && SlotOf(dir, a) in loaded && |loaded[SlotOf(dir, a)]| == FRAME_SIZE
      && if seg.vaddr <= a < seg.vaddr + seg.filesz
         then seg.offset + (a - seg.vaddr) < |elf| && loaded[SlotOf(dir, a)][OffsetOf(a)] == elf[seg.offset + (a - seg.vaddr)]
         else loaded[SlotOf(dir, a)][OffsetOf(a)] == 0
  {
    hide PagesDistinct, PagesToLoad, ImageWith, SegmentAt, SegmentCount, NoWrap, PageCount, PageAddress, PageOf;
    LoadedImage(image, dir, elf, i, a);
    ElfIsInside(elf);
    if SegmentAt(elf, i).vaddr <= a < SegmentAt(elf, i).vaddr + SegmentAt(elf, i).filesz { SourceInside(elf, i, a); }
  }

  lemma ElfIsInside(elf: seq<bv8>)
    requires Contained(elf) && IsElf32(elf)
    ensures |elf| >= 46 && forall i :: 0 <= i < SegmentCount(elf) ==> SegmentInside(elf, i)
  {
    if NoElfInside(elf) { NoElf(elf); }
  }

  lemma SourceInside(elf: seq<bv8>, i: nat, a: nat)
    requires SegmentInside(elf, i) && SegmentAt(elf, i).kind == PT_LOAD && NoWrap(SegmentAt(elf, i))
    requires FirstPage(SegmentAt(elf, i)) <= a < EndPage(SegmentAt(elf, i))
    requires SegmentAt(elf, i).vaddr <= a < SegmentAt(elf, i).vaddr + SegmentAt(elf, i).filesz
    ensures SegmentAt(elf, i).offset + (a - SegmentAt(elf, i).vaddr) < |elf|
  {
    if SkippedInside(elf, HeaderOffset(elf, i)) { NotLoaded(elf, i); }
    hide SegmentAt, SkippedInside;
    var seg := SegmentAt(elf, i);
    var p := (a - FirstPage(seg)) / FRAME_SIZE;
    PageOfAddress(seg, a);
    SamePage(a);
    var page := PageDown(a);
    assert CopiedInside(elf, seg, PageAddress(seg, p));
    CopySpan(seg, page, a);
  }

  lemma CopySpan(seg: Segment, page: nat, a: nat)
    requires NoWrap(seg) && FirstPage(seg) <= page <= a < page + FRAME_SIZE && page + FRAME_SIZE < 0x1_0000_0000
    requires seg.vaddr <= a < seg.vaddr + seg.filesz
    ensures CopyStart(seg, page) <= a < CopyEnd(seg, page)
    ensures seg.offset + (a - seg.vaddr) < CopySource(seg, page) + CopyEnd(seg, page) - CopyStart(seg, page)
  {
    assert U32(page + FRAME_SIZE) == page + FRAME_SIZE && U32(seg.vaddr + seg.filesz) == seg.vaddr + seg.filesz;
    assert CopySource(seg, page) == seg.offset + CopyStart(seg, page) - seg.vaddr;
  }
}
