/** ELF32 executables as a linker writes them (System V ABI, chapters 4 and 5), and what the loader makes of them: it reads back
    the entry point and the segments that were put in, and memory then holds their bytes. */
module ElfFormat {
  import opened Pmm
  import opened PageTables
  import opened Elf
  import opened ElfBounds
  import opened Paging
  import opened UserAccess

  /** A part of a program: to be loaded or not, where, how much memory, and the bytes it starts with. */
  datatype Part = Part(load: bool, vaddr: nat, memsz: nat, bytes: seq<bv8>)

  datatype Program = Program(entry: nat, parts: seq<Part>)

  /** Four and two bytes, the least first. */
  function Word(n: nat): (w: seq<bv8>)
    requires n < 0x1_0000_0000
    ensures |w| == 4
  {
    [AsByte(n % 256), AsByte(n / 256 % 256), AsByte(n / 65536 % 256), AsByte(n / 16777216)]
  }

  function Half(n: nat): (w: seq<bv8>)
    requires n < 0x1_0000
    ensures |w| == 2
  {
    [AsByte(n % 256), AsByte(n / 256)]
  }

  /** The 52 bytes of the file header; the program headers follow it. */
  function FileHeader(entry: nat, count: nat): (h: seq<bv8>)
    requires entry < 0x1_0000_0000 && count < 0x1_0000
    ensures |h| == 52
  {
    [0x7F, 0x45, 0x4C, 0x46, 1, 1, 1] + Zeros(9)
    + Half(2) + Half(3) + Word(1) + Word(entry) + Word(52) + Word(0) + Word(0) + Half(52) + Half(32) + Half(count) + Zeros(6)
  }

  /** The 32 bytes of a program header: type, offset, addresses, sizes, flags and alignment. */
  function PartHeader(part: Part, offset: nat): (h: seq<bv8>)
    requires offset < 0x1_0000_0000 && part.vaddr < 0x1_0000_0000 && part.memsz < 0x1_0000_0000 && |part.bytes| < 0x1_0000_0000
    ensures |h| == 32
  {
    Word(if part.load then 1 else 0) + Word(offset) + Word(part.vaddr) + Word(part.vaddr)
    + Word(|part.bytes|) + Word(part.memsz) + Word(7) + Word(4096)
  }

  function Data(parts: seq<Part>): seq<bv8> { if parts == [] then [] else Data(parts[..|parts| - 1]) + parts[|parts| - 1].bytes }

  /** Where the bytes of a part are in the file: behind all headers and the bytes of the parts before it. */
  function Offset(p: Program, i: nat): nat
    requires i <= |p.parts|
  {
    52 + 32 * |p.parts| + |Data(p.parts[..i])|
  }

  /** The numbers of a program fit their fields. */
  predicate Fitting(p: Program) {
    && p.entry < 0x1_0000_0000 && |p.parts| < 0x1_0000 && Offset(p, |p.parts|) <= 0x1_0000_0000
    && forall i :: 0 <= i < |p.parts| ==> FittingPart(p, i)
  }

  predicate FittingPart(p: Program, i: nat)
    requires i < |p.parts|
  {
    p.parts[i].vaddr < 0x1_0000_0000 && p.parts[i].memsz < 0x1_0000_0000 && |p.parts[i].bytes| < 0x1_0000_0000 && Offset(p, i) < 0x1_0000_0000
  }

  function Headers(p: Program, n: nat): (h: seq<bv8>)
    requires Fitting(p) && n <= |p.parts|
    ensures |h| == 32 * n
  {
    if n == 0 then [] else
      assert FittingPart(p, n - 1);
      Headers(p, n - 1) + PartHeader(p.parts[n - 1], Offset(p, n - 1))
  }

  /** The executable. */
  function File(p: Program): seq<bv8>
    requires Fitting(p)
  {
    FileHeader(p.entry, |p.parts|) + Headers(p, |p.parts|) + Data(p.parts)
  }

  // ---------------------------------------------------------------- reading back

  lemma FourAt(s: seq<bv8>, at: nat, w: seq<bv8>)
    requires |w| == 4 && at + 4 <= |s| && s[at..at + 4] == w
    ensures Le32(s, at) == w[0] as nat + 256 * w[1] as nat + 65536 * (w[2] as nat + 256 * w[3] as nat)
  {
    assert s[at..at + 4][0] == s[at] && s[at..at + 4][1] == s[at + 1] && s[at..at + 4][2] == s[at + 2] && s[at..at + 4][3] == s[at + 3];
  }

  lemma WordRead(s: seq<bv8>, at: nat, n: nat)
    requires n < 0x1_0000_0000 && at + 4 <= |s| && s[at..at + 4] == Word(n)
    ensures Le32(s, at) == n
  {
    var w := Word(n);
    assert w[0] as nat == n % 256 && w[1] as nat == n / 256 % 256 && w[2] as nat == n / 65536 % 256 && w[3] as nat == n / 16777216;
    hide AsByte, Word, Le32;
    FourAt(s, at, w);
    WordSum(n);
  }

  lemma WordSum(n: nat)
    requires n < 0x1_0000_0000
    ensures n % 256 + 256 * (n / 256 % 256) + 65536 * (n / 65536 % 256 + 256 * (n / 16777216)) == n
  {
    assert n / 65536 == n / 256 / 256;
    assert n / 16777216 == n / 65536 / 256;
  }

  lemma HalfRead(s: seq<bv8>, at: nat, n: nat)
    requires n < 0x1_0000 && at + 2 <= |s| && s[at..at + 2] == Half(n)
    ensures Le16(s, at) == n
  {
    hide AsByte;
    assert s[at..at + 2][0] == s[at] && s[at..at + 2][1] == s[at + 1];
  }

  /** The parts of the file header. */
  lemma HeaderParts(entry: nat, count: nat)
    requires entry < 0x1_0000_0000 && count < 0x1_0000
    ensures var h := FileHeader(entry, count);
      && h[0] == 0x7F && h[1] == 0x45 && h[2] == 0x4C && h[3] == 0x46 && h[4] == 1
      && h[24..28] == Word(entry) && h[28..32] == Word(52) && h[44..46] == Half(count)
  {
    hide Word, Half;
  }

  /** The fields of the file header stand where the loader looks for them. */
  lemma HeaderRead(s: seq<bv8>, entry: nat, count: nat)
    requires entry < 0x1_0000_0000 && count < 0x1_0000 && |s| >= 52 && s[0..52] == FileHeader(entry, count)
    ensures IsElf32(s) && EntryPoint(s) == entry && Le32(s, 28) == 52 && SegmentCount(s) == count
  {
    hide FileHeader, Word, Half, Le32, Le16, IsElf32;
    var h := FileHeader(entry, count);
    HeaderParts(entry, count);
    MagicRead(s, h);
    assert EntryPoint(s) == entry by { SubSlice(s, 0, 52, 24, 28); WordRead(s, 24, entry); }
    assert Le32(s, 28) == 52 by { SubSlice(s, 0, 52, 28, 32); WordRead(s, 28, 52); }
    assert SegmentCount(s) == count by { SubSlice(s, 0, 52, 44, 46); HalfRead(s, 44, count); }
  }

  lemma MagicRead(s: seq<bv8>, h: seq<bv8>)
    requires |s| >= 52 && s[0..52] == h && h[0] == 0x7F && h[1] == 0x45 && h[2] == 0x4C && h[3] == 0x46 && h[4] == 1
    ensures IsElf32(s)
  {
    forall i: nat | i < 5 ensures s[i] == s[0..52][i] {}
  }

  lemma PartFields(part: Part, offset: nat)
    requires offset < 0x1_0000_0000 && part.vaddr < 0x1_0000_0000 && part.memsz < 0x1_0000_0000 && |part.bytes| < 0x1_0000_0000
    ensures var h := PartHeader(part, offset);
      && h[0..4] == Word(if part.load then 1 else 0) && h[4..8] == Word(offset) && h[8..12] == Word(part.vaddr)
      && h[16..20] == Word(|part.bytes|) && h[20..24] == Word(part.memsz)
  {
    hide Word;
  }

  lemma PartRead(s: seq<bv8>, at: nat, part: Part, offset: nat)
    requires offset < 0x1_0000_0000 && part.vaddr < 0x1_0000_0000 && part.memsz < 0x1_0000_0000 && |part.bytes| < 0x1_0000_0000
    requires at + 32 <= |s| && s[at..at + 32] == PartHeader(part, offset)
    ensures Le32(s, at) == (if part.load then 1 else 0) && Le32(s, at + 4) == offset && Le32(s, at + 8) == part.vaddr
    ensures Le32(s, at + 16) == |part.bytes| && Le32(s, at + 20) == part.memsz
  {
    PartFields(part, offset);
    hide PartHeader, Word, Le32;
    SubSlice(s, at, at + 32, 0, 4);
    SubSlice(s, at, at + 32, 4, 8);
    SubSlice(s, at, at + 32, 8, 12);
    SubSlice(s, at, at + 32, 16, 20);
    SubSlice(s, at, at + 32, 20, 24);
    WordRead(s, at, if part.load then 1 else 0);
    WordRead(s, at + 4, offset);
    WordRead(s, at + 8, part.vaddr);
    WordRead(s, at + 16, |part.bytes|);
    WordRead(s, at + 20, part.memsz);
  }

  lemma {:induction false} HeadersAt(p: Program, n: nat, i: nat)
    requires Fitting(p) && i < n <= |p.parts| && FittingPart(p, i)
    ensures Headers(p, n)[32 * i..32 * i + 32] == PartHeader(p.parts[i], Offset(p, i))
  {
    hide Fitting, PartHeader, Offset;
    if i < n - 1 {
      HeadersAt(p, n - 1, i);
      assert Headers(p, n)[32 * i..32 * i + 32] == Headers(p, n - 1)[32 * i..32 * i + 32];
    }
  }

  lemma {:induction false} DataAt(parts: seq<Part>, i: nat, k: nat)
    requires i < |parts| && k < |parts[i].bytes|
    ensures |Data(parts[..i])| + k < |Data(parts)| && Data(parts)[|Data(parts[..i])| + k] == parts[i].bytes[k]
    decreases |parts|
  {
    var n := |parts| - 1;
    if i < n {
      DataAt(parts[..n], i, k);
      assert parts[..n][..i] == parts[..i];
    }
  }

  lemma {:induction false} DataGrows(parts: seq<Part>, i: nat)
    requires i < |parts|
    ensures |Data(parts[..i])| + |parts[i].bytes| <= |Data(parts)|
    decreases |parts|
  {
    var n := |parts| - 1;
    if i < n {
      DataGrows(parts[..n], i);
      assert parts[..n][..i] == parts[..i];
    }
  }

  /** Where the three parts of the file are. */
  lemma FileParts(p: Program)
    requires Fitting(p)
    ensures var s, n := File(p), |p.parts|;
      && |s| == 52 + 32 * n + |Data(p.parts)| && s[0..52] == FileHeader(p.entry, n)
      && s[52..52 + 32 * n] == Headers(p, n) && s[52 + 32 * n..] == Data(p.parts)
  {
    hide Fitting, FileHeader, Headers, Data;
  }

  lemma SegmentRead(p: Program, i: nat)
    requires Fitting(p) && i < |p.parts| && FittingPart(p, i) && Le32(File(p), 28) == 52
    ensures SegmentAt(File(p), i) ==
      Segment(if p.parts[i].load then 1 else 0, Offset(p, i), p.parts[i].vaddr, |p.parts[i].bytes|, p.parts[i].memsz)
  {
    hide Fitting, Headers, FileHeader, PartHeader, Le32, Offset, File, Data;
    FileParts(p);
    HeadersAt(p, |p.parts|, i);
    SubSlice(File(p), 52, 52 + 32 * |p.parts|, 32 * i, 32 * i + 32);
    PartRead(File(p), 52 + 32 * i, p.parts[i], Offset(p, i));
  }

  /** The loader reads back the program's entry point, the number of its parts, and of every part what was put in. */
  lemma ReadBack(p: Program, i: nat)
    requires Fitting(p)
    ensures IsElf32(File(p)) && EntryPoint(File(p)) == p.entry && SegmentCount(File(p)) == |p.parts|
    ensures i < |p.parts| ==>
      var part := p.parts[i];
      SegmentAt(File(p), i) == Segment(if part.load then 1 else 0, Offset(p, i), part.vaddr, |part.bytes|, part.memsz)
    ensures HeaderOffset(File(p), i) == 52 + 32 * i
  {
    FileParts(p);
    assert i < |p.parts| ==> FittingPart(p, i);
    assert |p.parts| < 0x1_0000 && p.entry < 0x1_0000_0000;
    hide Fitting, Headers, FileHeader, File, Data, Offset, FittingPart, IsElf32, EntryPoint, SegmentCount, SegmentAt, Le32;
    HeaderRead(File(p), p.entry, |p.parts|);
    if i < |p.parts| { SegmentRead(p, i); }
  }

  lemma DataRead(p: Program, i: nat, k: nat)
    requires Fitting(p) && i < |p.parts| && k < |p.parts[i].bytes|
    ensures Offset(p, i) + k < |File(p)| && File(p)[Offset(p, i) + k] == p.parts[i].bytes[k]
  {
    hide Fitting, FileHeader, Headers, File, Data;
    FileParts(p);
    DataAt(p.parts, i, k);
    DropAt(File(p), 52 + 32 * |p.parts|, |Data(p.parts[..i])| + k);
  }

  lemma SubSlice(s: seq<bv8>, a: nat, b: nat, c: nat, d: nat)
    requires a <= b <= |s| && c <= d <= b - a
    ensures s[a..b][c..d] == s[a + c..a + d]
  {
    forall i | 0 <= i < d - c ensures s[a..b][c..d][i] == s[a + c..a + d][i] {}
  }

  lemma DropAt(s: seq<bv8>, a: nat, k: nat)
    requires a + k < |s|
    ensures s[a..][k] == s[a + k]
  {
  }

  // ---------------------------------------------------------------- loading

  /** A program whose parts to be loaded lie in user memory, hold their bytes, and share no page. */
  ghost predicate WellLaid(p: Program) {
    && (forall i :: 0 <= i < |p.parts| && p.parts[i].load ==> LaidOut(p.parts[i]))
    && (forall i, j :: 0 <= i < j < |p.parts| && p.parts[i].load && p.parts[j].load ==> ApartParts(p.parts[i], p.parts[j]))
  }

  ghost predicate LaidOut(part: Part) {
    0x400_0000 <= part.vaddr && part.vaddr + part.memsz + 4096 <= 0x1_0000_0000 && |part.bytes| <= part.memsz
  }

  /** The first page of a part, and the one after its last. */
  function FirstPageOf(part: Part): nat { part.vaddr / 4096 }
  function PagesEnd(part: Part): nat { (part.vaddr + part.memsz + 4095) / 4096 }

  predicate ApartParts(a: Part, b: Part) { PagesEnd(a) <= FirstPageOf(b) || PagesEnd(b) <= FirstPageOf(a) }

  /** A segment takes just the pages its memory lies in. */
  lemma PagesOfPart(seg: Segment, part: Part)
    requires LaidOut(part) && seg.vaddr == part.vaddr && seg.memsz == part.memsz && seg.filesz == |part.bytes|
    requires seg.offset + seg.filesz <= 0x1_0000_0000
    ensures NoWrap(seg) && PageCount(seg) == PagesEnd(part) - FirstPageOf(part)
    ensures FirstPage(seg) == FirstPageOf(part) * 4096 && EndPage(seg) == PagesEnd(part) * 4096
    ensures forall p: nat :: p < PageCount(seg) ==> PageAddress(seg, p) == (FirstPageOf(part) + p) * 4096 < 0x1_0000_0000
  {
    assert EndPage(seg) == PagesEnd(part) * 4096;
    assert FirstPage(seg) == FirstPageOf(part) * 4096;
    hide EndPage, FirstPage;
  }

  /** Every page the loader maps is one that a part's memory lies in. */
  lemma {:induction false} PageInPart(p: Program, n: nat, k: nat) returns (i: nat, at: nat)
    requires Fitting(p) && WellLaid(p) && n <= |p.parts| && k < |PagesToLoad(File(p), n)|
    ensures i < n && p.parts[i].load && FirstPageOf(p.parts[i]) <= at < PagesEnd(p.parts[i])
    ensures PagesToLoad(File(p), n)[k].virt == at * 4096 < 0x1_0000_0000
  {
    hide File, PageAddress, PageImage, PageCount, SegmentAt, Fitting, WellLaid, PagesEnd, FirstPageOf;
    var before := PagesToLoad(File(p), n - 1);
    if k < |before| {
      i, at := PageInPart(p, n - 1, k);
    } else {
      i := n - 1;
      PartSegment(p, i);
      at := FirstPageOf(p.parts[i]) + (k - |before|);
    }
  }

  /** A part that is loaded, as the loader sees it. */
  lemma PartSegment(p: Program, i: nat)
    requires Fitting(p) && WellLaid(p) && i < |p.parts|
    ensures var seg := SegmentAt(File(p), i);
      && (seg.kind == PT_LOAD <==> p.parts[i].load)
      && (p.parts[i].load ==>
            && LaidOut(p.parts[i]) && NoWrap(seg) && seg.filesz == |p.parts[i].bytes| && seg.offset == Offset(p, i)
            && seg.vaddr == p.parts[i].vaddr && seg.memsz == p.parts[i].memsz
            && PageCount(seg) == PagesEnd(p.parts[i]) - FirstPageOf(p.parts[i])
            && FirstPage(seg) == FirstPageOf(p.parts[i]) * 4096 && EndPage(seg) == PagesEnd(p.parts[i]) * 4096
            && forall q: nat :: q < PageCount(seg) ==> PageAddress(seg, q) == (FirstPageOf(p.parts[i]) + q) * 4096 < 0x1_0000_0000)
  {
    hide File, Offset, Fitting, SegmentAt, PageCount, PageAddress, FirstPage, EndPage, NoWrap, FirstPageOf, PagesEnd, ApartParts;
    ReadBack(p, i);
    OffsetFits(p, i);
    if p.parts[i].load { PagesOfPart(SegmentAt(File(p), i), p.parts[i]); }
  }

  lemma OffsetFits(p: Program, i: nat)
    requires Fitting(p) && i < |p.parts|
    ensures Offset(p, i) + |p.parts[i].bytes| <= 0x1_0000_0000
  {
    hide Data, FittingPart;
    DataGrows(p.parts, i);
    assert p.parts[..|p.parts|] == p.parts;
  }

  lemma PageNumbers(a: nat, b: nat)
    ensures PageOf(a * 4096) == PageOf(b * 4096) ==> a == b
    ensures a * 4096 >= 0x400_0000 ==> PageOf(a * 4096).pd >= 16
  {
    assert a == a / 1024 * 1024 + a % 1024 && b == b / 1024 * 1024 + b % 1024;
    assert a * 4096 / 0x40_0000 == a / 1024 && b * 4096 / 0x40_0000 == b / 1024;
    assert a * 4096 / 4096 == a && b * 4096 / 4096 == b;
  }

  /** No page is mapped twice, and none in the kernel's half. */
  lemma {:induction false} LaidApart(p: Program, n: nat)
    requires Fitting(p) && WellLaid(p) && n <= |p.parts|
    ensures PagesDistinct(PagesToLoad(File(p), n))
  {
    hide *;
    if n == 0 { NoPages(File(p)); }
    else {
      LaidApart(p, n - 1);
      AllApart(p, n);
    }
  }

  lemma NoPages(elf: seq<bv8>)
    ensures PagesDistinct(PagesToLoad(elf, 0))
  {
  }

  lemma AllApart(p: Program, n: nat)
    requires Fitting(p) && WellLaid(p) && 0 < n <= |p.parts| && PagesDistinct(PagesToLoad(File(p), n - 1))
    ensures PagesDistinct(PagesToLoad(File(p), n))
  {
    hide *;
    var all := PagesToLoad(File(p), n);
    forall k: nat | k < |all| ensures PageOf(all[k].virt).pd >= IDENTITY_TABLES { UserPage(p, n, k); }
    forall k: nat, l: nat | k < l < |all| ensures PageOf(all[k].virt) != PageOf(all[l].virt) { ApartPages(p, n, k, l); }
    DistinctIs(all);
  }

  lemma DistinctIs(pages: seq<LoadPage>)
    requires forall k: nat :: k < |pages| ==> PageOf(pages[k].virt).pd >= IDENTITY_TABLES
    requires forall k: nat, l: nat :: k < l < |pages| ==> PageOf(pages[k].virt) != PageOf(pages[l].virt)
    ensures PagesDistinct(pages)
  {
    hide PageOf;
  }

  lemma UserPage(p: Program, n: nat, k: nat)
    requires Fitting(p) && WellLaid(p) && n <= |p.parts| && k < |PagesToLoad(File(p), n)|
    ensures PageOf(PagesToLoad(File(p), n)[k].virt).pd >= IDENTITY_TABLES
  {
    hide File, Fitting, PageOf, PagesToLoad;
    var i, at := PageInPart(p, n, k);
    PageNumbers(at, at);
    assert LaidOut(p.parts[i]);
  }

  lemma ApartPages(p: Program, n: nat, k: nat, l: nat)
    requires Fitting(p) && WellLaid(p) && 0 < n <= |p.parts| && k < l < |PagesToLoad(File(p), n)| && PagesDistinct(PagesToLoad(File(p), n - 1))
    ensures PageOf(PagesToLoad(File(p), n)[k].virt) != PageOf(PagesToLoad(File(p), n)[l].virt)
  {
    hide File, PageImage, PageCount, SegmentAt, Fitting, PageOf, PageAddress;
    var before := PagesToLoad(File(p), n - 1);
    if l >= |before| {
      PartSegment(p, n - 1);
      var first := FirstPageOf(p.parts[n - 1]);
      if k >= |before| {
        PageNumbers(first + (k - |before|), first + (l - |before|));
      } else {
        var i, at := PageInPart(p, n - 1, k);
        assert ApartParts(p.parts[i], p.parts[n - 1]);
        PageNumbers(at, first + (l - |before|));
      }
    }
  }

  /** Nothing of the file reaches past its end. */
  lemma FileContained(p: Program)
    requires Fitting(p) && WellLaid(p)
    ensures Contained(File(p))
  {
    hide File, Fitting, WellLaid, SegmentInside, FileHeader, Headers, IsElf32, SegmentCount, SegmentAt, Data, EntryPoint, Offset, NoElfInside;
    hide HeaderOffset;
    ReadBack(p, 0);
    FileParts(p);
    forall i | 0 <= i < |p.parts| ensures SegmentInside(File(p), i) { PartInside(p, i); }
  }

  lemma PartInside(p: Program, i: nat)
    requires Fitting(p) && WellLaid(p) && i < |p.parts|
    ensures SegmentInside(File(p), i)
  {
    hide File, Fitting, WellLaid, SegmentAt, PagesEnd, FirstPageOf, LaidOut, PageCount, PageAddress, FirstPage, EndPage, NoWrap;
    hide CopiedInside, SkippedInside, FileHeader, Headers, HeaderOffset;
    ReadBack(p, i);
    FileParts(p);
    PartSegment(p, i);
    DataGrows(p.parts, i);
    var seg := SegmentAt(File(p), i);
    if p.parts[i].load {
      forall q: nat | q < PageCount(seg)
        ensures CopiedInside(File(p), seg, PageAddress(seg, q))
      {
        CopyStays(File(p), seg, PageAddress(seg, q), FirstPageOf(p.parts[i]) + q);
      }
    } else {
      if !SkippedInside(File(p), HeaderOffset(File(p), i)) { NotSkipped(File(p), i); }
    }
  }

  lemma CopyStays(elf: seq<bv8>, seg: Segment, page: nat, n: nat)
    requires NoWrap(seg) && page == n * 4096 < 0x1_0000_0000 && seg.offset + seg.filesz <= |elf|
    ensures CopiedInside(elf, seg, page)
  {
    if page + 4096 == 0x1_0000_0000 { assert U32(page + FRAME_SIZE) == 0; }
  }

  // ---------------------------------------------------------------- what memory then holds

  /** Loading a program puts the bytes of its parts where they belong, and zeros in the rest of their memory. */
  lemma ProgramLoads(p: Program, image: Image, dir: nat, i: nat, a: nat)
    requires Fitting(p) && WellLaid(p) && i < |p.parts| && p.parts[i].load
    requires p.parts[i].vaddr <= a < p.parts[i].vaddr + p.parts[i].memsz
    ensures var part, loaded := p.parts[i], ImageWith(image, dir, PagesToLoad(File(p), SegmentCount(File(p))));
      && SlotOf(dir, a) in loaded && |loaded[SlotOf(dir, a)]| == 4096
      && loaded[SlotOf(dir, a)][OffsetOf(a)] == if a < part.vaddr + |part.bytes| then part.bytes[a - part.vaddr] else 0
  {
    hide File, Fitting, WellLaid, SegmentAt, PageCount, PageAddress, FirstPage, EndPage, NoWrap, ImageWith, PagesToLoad, SegmentCount, IsElf32;
    hide Contained, PagesDistinct, PageOf, OffsetOf, Offset;
    ReadBack(p, i);
    PartSegment(p, i);
    FileContained(p);
    LaidApart(p, |p.parts|);
    LoadedFromFile(image, dir, File(p), i, a);
    if a < p.parts[i].vaddr + |p.parts[i].bytes| { DataRead(p, i, a - p.parts[i].vaddr); }
  }
}
