/** Where everything lies on a FAT16 disk, byte by byte: the layout of the Microsoft FAT specification ("FAT Data Structure", "FAT
    Directory Structure") that kernel/fat16.c goes by. */
module FatDisk {
  import opened Options
  import opened Bytes
  import opened FatLayout
  import opened Fat16
  import opened FatFiles

  /** The n-th byte of a disk of 512-byte sectors. */
  function ByteOf(disk: seq<seq<Byte>>, n: nat): Byte {
    if n / 512 < |disk| && n % 512 < |disk[n / 512]| then disk[n / 512][n % 512] else 0
  }

  /** Two and four bytes of a disk as a number, least byte first. */
  function TwoBytes(disk: seq<seq<Byte>>, n: nat): nat { ByteOf(disk, n) + 256 * ByteOf(disk, n + 1) }
  function FourBytes(disk: seq<seq<Byte>>, n: nat): nat {
    ByteOf(disk, n) + 256 * ByteOf(disk, n + 1) + 65536 * ByteOf(disk, n + 2) + 16777216 * ByteOf(disk, n + 3)
  }

  lemma SameSector(disk: seq<seq<Byte>>, lba: nat, o: nat)
    requires lba < |disk| && |disk[lba]| == 512 && o < 512
    ensures ByteOf(disk, lba * 512 + o) == disk[lba][o]
  {
  }

  /** The boot sector's fields. */
  lemma BootFields(disk: seq<seq<Byte>>)
    requires |disk| > 0 && |disk[0]| == 512
    ensures Le16(disk[0], 11) == TwoBytes(disk, 11)
    ensures var g := BootGeometry(disk[0]);
      && g.clusterSectors == ByteOf(disk, 13) && g.reserved == TwoBytes(disk, 14) && g.fats == ByteOf(disk, 16)
      && g.rootEntries == TwoBytes(disk, 17) && g.total == TwoBytes(disk, 19) && g.fatSectors == TwoBytes(disk, 22)
  {
    forall o: nat | o < 512 ensures ByteOf(disk, o) == disk[0][o] { SameSector(disk, 0, o); }
  }

  /** The table starts after the reserved sectors, two bytes an entry. */
  lemma EntryBytes(disk: seq<seq<Byte>>, g: Geometry, c: nat)
    requires DiskFits(disk, g) && c < |VolumeOf(disk, g).fat|
    ensures VolumeOf(disk, g).fat[c] == TwoBytes(disk, g.reserved * 512 + 2 * c)
  {
    hide VolumeOf, DiskFits, ByteOf, Geometry.Consistent;
    EntryIsAt(disk, g, c);
    EntryPlaces(g.reserved, c);
    SameSector(disk, g.reserved + c / 256, c % 256 * 2);
    SameSector(disk, g.reserved + c / 256, c % 256 * 2 + 1);
  }

  lemma EntryIsAt(disk: seq<seq<Byte>>, g: Geometry, c: nat)
    requires DiskFits(disk, g) && c < |VolumeOf(disk, g).fat|
    ensures var lba, o := g.reserved + c / 256, c % 256 * 2;
      lba < |disk| && |disk[lba]| == 512 && o + 1 < 512 && VolumeOf(disk, g).fat[c] == disk[lba][o] as nat + 256 * disk[lba][o + 1] as nat
  {
    FatInside(g, 0, c / 256);
    assert disk[g.reserved + c / 256] in disk;
    assert VolumeOf(disk, g).fat[c] == FatAt(disk, g, c);
    hide VolumeOf, DiskFits;
  }

  lemma EntryPlaces(first: nat, c: nat)
    ensures first * 512 + 2 * c == (first + c / 256) * 512 + c % 256 * 2 && c % 256 * 2 + 1 < 512
  {
  }

  /** Where the root directory starts: behind the copies of the table. And where the clusters do: behind the directory, which
      fills whole sectors. */
  function RootByte(g: Geometry): nat { (g.reserved + g.fats * g.fatSectors) * 512 }
  function DataByte(g: Geometry): nat { RootByte(g) + (g.rootEntries * 32 + 511) / 512 * 512 }

  /** The slots of the directory have 32 bytes each: name, attributes, first cluster, size. */
  lemma SlotFields(disk: seq<seq<Byte>>, g: Geometry, i: nat)
    requires DiskFits(disk, g) && i < |VolumeOf(disk, g).slots|
    ensures var d, at := VolumeOf(disk, g).slots[i], RootByte(g) + 32 * i;
      && |d.name| == 11 && (forall j :: 0 <= j < 11 ==> d.name[j] == ByteOf(disk, at + j))
      && d.attr == ByteOf(disk, at + 11) && d.first == TwoBytes(disk, at + 26) && d.size == FourBytes(disk, at + 28)
  {
    hide *;
    SlotIsAt(disk, g, i);
    SlotPlace(g, i);
    var sector, at := disk[g.RootLba(i / 16)], RootByte(g) + 32 * i;
    forall o: nat | o < 32 ensures SlotByte(disk, at, sector, i % 16, o) { OneSlotByte(disk, g.RootLba(i / 16), i % 16, o); }
    DirentBytes(disk, at, sector, i % 16);
  }

  lemma SlotIsAt(disk: seq<seq<Byte>>, g: Geometry, i: nat)
    requires DiskFits(disk, g) && i < |VolumeOf(disk, g).slots|
    ensures var lba := g.RootLba(i / 16);
      lba < |disk| && |disk[lba]| == 512 && VolumeOf(disk, g).slots[i] == DirentAt(disk[lba], i % 16)
  {
    SlotInside(disk, g, i);
    assert VolumeOf(disk, g).slots[i] == SlotAt(disk, g, i);
    hide VolumeOf, DiskFits, DirentAt, Geometry.RootStart;
  }

  /** A byte of a slot is where it should be. */
  predicate SlotByte(disk: seq<seq<Byte>>, at: nat, sector: seq<Byte>, e: nat, o: nat)
    requires |sector| == 512 && e < 16 && o < 32
  {
    ByteOf(disk, at + o) == sector[e * 32 + o]
  }

  lemma OneSlotByte(disk: seq<seq<Byte>>, lba: nat, e: nat, o: nat)
    requires lba < |disk| && |disk[lba]| == 512 && e < 16 && o < 32
    ensures SlotByte(disk, lba * 512 + e * 32, disk[lba], e, o)
  {
    SameSector(disk, lba, e * 32 + o);
  }

  lemma SlotPlace(g: Geometry, i: nat)
    ensures RootByte(g) + 32 * i == g.RootLba(i / 16) * 512 + i % 16 * 32
  {
    assert i == i / 16 * 16 + i % 16;
  }

  lemma SlotInside(disk: seq<seq<Byte>>, g: Geometry, i: nat)
    requires DiskFits(disk, g) && i < g.Slots()
    ensures g.RootLba(i / 16) < |disk| && |disk[g.RootLba(i / 16)]| == 512
  {
    assert i / 16 < g.RootSectors();
    assert disk[g.RootLba(i / 16)] in disk;
  }

  lemma DirentBytes(disk: seq<seq<Byte>>, at: nat, sector: seq<Byte>, e: nat)
    requires |sector| == 512 && e < 16 && forall o: nat :: o < 32 ==> SlotByte(disk, at, sector, e, o)
    ensures var d := DirentAt(sector, e);
      && |d.name| == 11 && (forall j :: 0 <= j < 11 ==> d.name[j] == ByteOf(disk, at + j))
      && d.attr == ByteOf(disk, at + 11) && d.first == TwoBytes(disk, at + 26) && d.size == FourBytes(disk, at + 28)
  {
    hide ByteOf;
    assert SlotByte(disk, at, sector, e, 11) && SlotByte(disk, at, sector, e, 26) && SlotByte(disk, at, sector, e, 27);
    assert SlotByte(disk, at, sector, e, 28) && SlotByte(disk, at, sector, e, 29);
    assert SlotByte(disk, at, sector, e, 30) && SlotByte(disk, at, sector, e, 31);
    forall j: nat | j < 11 ensures DirentAt(sector, e).name[j] == ByteOf(disk, at + j) { assert SlotByte(disk, at, sector, e, j); }
  }

  function NthCluster(start: nat, c: nat, size: nat): nat
    requires c >= 2
  {
    start + (c - 2) * size
  }

  /** The clusters follow one another; the first is cluster 2. */
  lemma ClusterBytesAt(disk: seq<seq<Byte>>, g: Geometry, c: nat, o: nat)
    requires DiskFits(disk, g) && 2 <= c < |VolumeOf(disk, g).clusters| && o < g.clusterSectors * 512
    ensures |VolumeOf(disk, g).clusters[c]| == g.clusterSectors * 512
    ensures VolumeOf(disk, g).clusters[c][o] == ByteOf(disk, NthCluster(DataByte(g), c, g.clusterSectors * 512) + o)
  {
    assert VolumeOf(disk, g).clusters[c] == ClusterAt(disk, g, c);
    ClusterLength(disk, g, c);
    DataInside(g, c);
    hide VolumeOf, DataByte, NthCluster, ByteOf, Geometry.DataLba, Geometry.DataStart, Geometry.Clusters, Geometry.Consistent;
    var lba := g.DataLba(c);
    var part := disk[lba..lba + g.clusterSectors];
    assert forall s <- part :: s in disk;
    FlatAt(part, o);
    Within(o, g.clusterSectors);
    assert part[o / 512] == disk[lba + o / 512] && disk[lba + o / 512] in disk;
    SameSector(disk, lba + o / 512, o % 512);
    ClusterPlace(g, c, o, lba);
  }

  lemma Within(o: nat, n: nat)
    requires o < n * 512
    ensures o / 512 < n
  {
  }

  lemma ClusterPlace(g: Geometry, c: nat, o: nat, lba: nat)
    requires c >= 2 && lba == g.DataLba(c)
    ensures NthCluster(DataByte(g), c, g.clusterSectors * 512) + o == (lba + o / 512) * 512 + o % 512
  {
    var k := g.clusterSectors;
    assert (c - 2) * (k * 512) == (c - 2) * k * 512;
  }

  lemma {:induction false} FlatAt(sectors: seq<seq<Byte>>, o: nat)
    requires (forall s <- sectors :: |s| == SECTOR) && o < |sectors| * 512
    ensures |Flat(sectors)| == |sectors| * 512 && Flat(sectors)[o] == sectors[o / 512][o % 512]
  {
    var last := |sectors| - 1;
    assert forall s <- sectors[..last] :: s in sectors;
    assert sectors[last] in sectors;
    if o < last * 512 {
      FlatAt(sectors[..last], o);
    } else {
      assert |Flat(sectors[..last])| == last * 512;
      assert o / 512 == last && o - last * 512 == o % 512;
    }
  }

  /** What an entry of the table means, and which slots hold files: neither unused nor deleted, and neither a directory nor the
      volume's label. */
  lemma Kinds(v: nat, d: Dirent)
    requires |d.name| == 11
    ensures IsLink(v) <==> 2 <= v < 0xFFF8
    ensures Regular(d) <==> d.name[0] != 0 && d.name[0] != 0xE5 && (d.attr as bv8) & 0x08 == 0 && (d.attr as bv8) & 0x10 == 0
  {
    AttrBits(d.attr as bv8);
    assert (d.attr as bv8) as int == d.attr;
  }

  lemma AttrBits(a: bv8)
    ensures (a & 0x08 == 0 <==> (a as int) / 8 % 2 == 0) && (a & 0x10 == 0 <==> (a as int) / 16 % 2 == 0)
  {
    assert a & 0x08 == 0 <==> (a / 8) % 2 == 0;
    assert a & 0x10 == 0 <==> (a / 16) % 2 == 0;
    assert (a / 8) as int == (a as int) / 8 && (a / 16) as int == (a as int) / 16;
  }

  /** The slot found under a name is the first that holds a file of that name, before any that was never used. */
  lemma {:induction false} LookupIs(slots: seq<Dirent>, name: seq<Byte>, i: nat, t: nat)
    requires i <= |slots|
    ensures Lookup(slots, name, i) == Some(t) <==>
      && i <= t < |slots| && FirstByte(slots[t]) != 0 && Regular(slots[t]) && slots[t].name == name
      && forall j :: i <= j < t ==> FirstByte(slots[j]) != 0 && !(Regular(slots[j]) && slots[j].name == name)
    decreases |slots| - i
  {
    if i < |slots| { LookupIs(slots, name, i + 1, t); }
  }

  // ---------------------------------------------------------------- the bytes of a file

  /** The clusters of a file, read off the disk: the directory tells the first, and the table after each the next. */
  function ClusterNo(disk: seq<seq<Byte>>, g: Geometry, first: nat, j: nat): nat {
    if j == 0 then first else TwoBytes(disk, g.reserved * 512 + 2 * ClusterNo(disk, g, first, j - 1))
  }

  /** The byte of a file that is o bytes into its j-th cluster. */
  function FileByte(disk: seq<seq<Byte>>, g: Geometry, first: nat, j: nat, o: nat): Byte {
    var c := ClusterNo(disk, g, first, j);
    if c < 2 then 0 else ByteOf(disk, NthCluster(DataByte(g), c, g.clusterSectors * 512) + o)
  }

  lemma {:induction false} JoinedAt(clusters: seq<seq<Byte>>, chain: seq<nat>, k: nat, j: nat, o: nat)
    requires (forall c <- chain :: |ClusterOf(clusters, c)| == k) && j < |chain| && o < k
    ensures j * k + o < |Joined(clusters, chain)| && Joined(clusters, chain)[j * k + o] == ClusterOf(clusters, chain[j])[o]
  {
    var last := |chain| - 1;
    var init := chain[..last];
    assert forall c <- init :: c in chain;
    assert chain[last] in chain;
    if j < last {
      JoinedAt(clusters, init, k, j, o);
    } else {
      JoinedSize(clusters, init, k);
    }
  }

  lemma {:induction false} JoinedSize(clusters: seq<seq<Byte>>, chain: seq<nat>, k: nat)
    requires forall c <- chain :: |ClusterOf(clusters, c)| == k
    ensures |Joined(clusters, chain)| == |chain| * k
  {
    if chain != [] {
      assert forall c <- chain[..|chain| - 1] :: c in chain;
      assert chain[|chain| - 1] in chain;
      JoinedSize(clusters, chain[..|chain| - 1], k);
    }
  }

  lemma {:induction false} ChainNumbers(disk: seq<seq<Byte>>, g: Geometry, fat: seq<nat>, chain: seq<nat>, j: nat)
    requires DiskFits(disk, g) && fat == VolumeOf(disk, g).fat && j < |chain| && Linked(fat, chain)
    ensures ClusterNo(disk, g, chain[0], j) == chain[j]
  {
    hide DiskFits, VolumeOf, TwoBytes;
    if j > 0 {
      ChainNumbers(disk, g, fat, chain, j - 1);
      assert chain[j - 1] < |fat| && LinkedAt(fat, chain, j - 1);
      EntryBytes(disk, g, chain[j - 1]);
    }
  }

  /** The byte of a file that is o bytes into its j-th cluster is what the disk holds where first cluster and table lead to. */
  ghost predicate OffDisk(disk: seq<seq<Byte>>, g: Geometry, first: nat, file: seq<Byte>, j: nat, o: nat) {
    var n := j * (g.clusterSectors * 512) + o;
    o < g.clusterSectors * 512 && n < |file| ==> file[n] == FileByte(disk, g, first, j, o)
  }

  /** The file of a slot has the slot's size, and every byte of it is where its first cluster and the table lead to. */
  lemma FileOnDisk(disk: seq<seq<Byte>>, g: Geometry, ch: Chains, own: map<nat, Place>, i: nat, j: nat, o: nat)
    requires DiskFits(disk, g) && g.clusterSectors > 0 && Kept(VolumeOf(disk, g), g.clusterSectors * 512, ch, own, None)
    requires i < |VolumeOf(disk, g).slots| && Regular(VolumeOf(disk, g).slots[i])
    ensures var d, files := VolumeOf(disk, g).slots[i], Files(VolumeOf(disk, g), ch);
      d.name in files && |files[d.name]| == d.size && OffDisk(disk, g, d.first, files[d.name], j, o)
  {
    var v := VolumeOf(disk, g);
    hide DiskFits, VolumeOf, Files, Regular, Kept, FileByte, Joined, Needed, Linked;
    NameHeld(v, ch, own, g.clusterSectors * 512, i);
    ChainSized(v, g.clusterSectors * 512, ch, own, i);
    assert |ch| == |v.slots|;
    ChainOnDisk(disk, g, v, ch[i], v.slots[i], j, o);
  }

  lemma ChainOnDisk(disk: seq<seq<Byte>>, g: Geometry, v: Volume, chain: seq<nat>, d: Dirent, j: nat, o: nat)
    requires DiskFits(disk, g) && v == VolumeOf(disk, g) && Linked(v.fat, chain) && g.clusterSectors > 0
    requires |chain| == Needed(d.size, g.clusterSectors * 512) && (chain != [] ==> d.first == chain[0])
    requires forall c <- chain :: 2 <= c < |v.clusters| && |ClusterOf(v.clusters, c)| == g.clusterSectors * 512
    ensures d.size <= |Joined(v.clusters, chain)| && OffDisk(disk, g, d.first, Joined(v.clusters, chain)[..d.size], j, o)
  {
    hide DiskFits, VolumeOf, FileByte, Joined, Needed, Linked;
    var k := g.clusterSectors * 512;
    JoinedLength(v.clusters, chain, d.size, k);
    if o < k && j * k + o < d.size {
      ChainLong(d.size, |chain|, k, j, o);
      JoinedAt(v.clusters, chain, k, j, o);
      OnDisk(disk, g, v, chain, j, o);
    }
  }

  lemma ChainLong(size: nat, n: nat, k: nat, j: nat, o: nat)
    requires k > 0 && n == Needed(size, k) && j * k + o < size
    ensures j < n
  {
    LongEnough(size, k);
    if j >= n { Multiplied(n, j, k); }
  }

  lemma Multiplied(n: nat, j: nat, k: nat)
    requires n <= j
    ensures n * k <= j * k
  {
  }

  lemma {:induction false} LongEnough(size: nat, k: nat)
    requires k > 0
    ensures size <= Needed(size, k) * k
    decreases size
  {
    if size > k { LongEnough(size - k, k); }
  }

  lemma OnDisk(disk: seq<seq<Byte>>, g: Geometry, v: Volume, chain: seq<nat>, j: nat, o: nat)
    requires DiskFits(disk, g) && v == VolumeOf(disk, g) && j < |chain| && Linked(v.fat, chain)
    requires 2 <= chain[j] < |v.clusters| && o < g.clusterSectors * 512
    ensures |ClusterOf(v.clusters, chain[j])| == g.clusterSectors * 512
    ensures ClusterOf(v.clusters, chain[j])[o] == FileByte(disk, g, chain[0], j, o)
  {
    hide DiskFits, VolumeOf, ByteOf, DataByte, NthCluster, ClusterNo, Linked;
    ChainNumbers(disk, g, v.fat, chain, j);
    ClusterBytesAt(disk, g, chain[j], o);
  }

  lemma NameHeld(v: Volume, ch: Chains, own: map<nat, Place>, k: nat, i: nat)
    requires k > 0 && Kept(v, k, ch, own, None) && i < |v.slots| && Regular(v.slots[i])
    ensures |ch| == |v.slots|
    ensures v.slots[i].name in Files(v, ch) && Files(v, ch)[v.slots[i].name] == FileAt(v, ch, i)
  {
    LookupFinds(v.slots, i, 0);
    assert v.slots[i].name in Names(v.slots);
  }

  lemma ChainSized(v: Volume, k: nat, ch: Chains, own: map<nat, Place>, i: nat)
    requires Kept(v, k, ch, own, None) && i < |v.slots| && Regular(v.slots[i])
    ensures Linked(v.fat, ch[i]) && |ch[i]| == Needed(v.slots[i].size, k) && (ch[i] != [] ==> v.slots[i].first == ch[i][0])
    ensures forall c <- ch[i] :: 2 <= c < |v.clusters| && |ClusterOf(v.clusters, c)| == k
  {
    assert SlotKept(v.slots[i], ch[i], k);
    forall c <- ch[i] ensures 2 <= c < |v.clusters| && |ClusterOf(v.clusters, c)| == k {
      var j :| 0 <= j < |ch[i]| && ch[i][j] == c;
      assert c in own;
    }
  }
}
