/** Where things lie on a FAT16 volume, and the volume that a disk's sectors describe (Microsoft FAT
    specification, "FAT Data Structure" and "FAT Directory Structure"). */
module FatLayout {
  import opened Bytes

  const FREE := 0x0000
  const END_MARK := 0xFFFF
  const FIRST_END := 0xFFF8   // this and above end a chain
  const ENTRIES_PER_SECTOR := 256
  const SLOTS_PER_SECTOR := 16
  const SLOT_BYTES := 32

  /** The fields of the BIOS parameter block that the driver uses. */
  datatype Geometry = Geometry(reserved: nat, fats: nat, fatSectors: nat, rootEntries: nat, clusterSectors: nat, total: nat) {
    function RootStart(): nat { reserved + fats * fatSectors }
    function RootSectors(): nat { (rootEntries * SLOT_BYTES + SECTOR - 1) / SECTOR }
    function DataStart(): nat { RootStart() + RootSectors() }
    function ClusterBytes(): nat { clusterSectors * SECTOR }

    /** One more than the highest cluster number. */
    function Clusters(): nat
      requires clusterSectors > 0 && DataStart() <= total
    {
      (total - DataStart()) / clusterSectors + 2
    }

    function Slots(): nat { RootSectors() * SLOTS_PER_SECTOR }

    predicate Consistent() {
      && 1 <= clusterSectors <= 8 && 1 <= fats && 1 <= reserved && DataStart() < total
      && Clusters() <= fatSectors * ENTRIES_PER_SECTOR && Clusters() <= 0xFFF7
      && total < 0x1_0000
    }

    function FatLba(copy: nat, sector: nat): nat { reserved + copy * fatSectors + sector }
    function RootLba(sector: nat): nat { RootStart() + sector }
    function DataLba(c: nat): nat requires c >= 2 { DataStart() + (c - 2) * clusterSectors }
  }

  lemma {:induction false} Rows(a: nat, b: nat, k: nat)
    requires a < b
    ensures a * k + k <= b * k
    decreases b
  {
    OneRow(b - 1, k);
    if a < b - 1 { Rows(a, b - 1, k); }
  }

  lemma OneRow(a: nat, k: nat)
    ensures (a + 1) * k == a * k + k
  {
  }

  lemma FatInside(g: Geometry, copy: nat, sector: nat)
    requires copy < g.fats && sector < g.fatSectors
    ensures g.reserved <= g.FatLba(copy, sector) < g.RootStart()
  {
    Rows(copy, g.fats, g.fatSectors);
  }

  /** Different copies of the table share no sector. */
  lemma FatApart(g: Geometry, copy: nat, sector: nat, copy': nat, sector': nat)
    requires copy < copy' && sector < g.fatSectors
    ensures g.FatLba(copy, sector) < g.FatLba(copy', sector')
  {
    Rows(copy, copy', g.fatSectors);
  }

  lemma DataInside(g: Geometry, c: nat)
    requires g.Consistent() && 2 <= c < g.Clusters()
    ensures g.DataStart() <= g.DataLba(c) && g.DataLba(c) + g.clusterSectors <= g.total
  {
    var room, k := g.total - g.DataStart(), g.clusterSectors;
    Rows(c - 2, room / k, k);
    WholeParts(room, k);
  }

  lemma WholeParts(n: nat, k: nat)
    requires k > 0
    ensures n / k * k <= n
  {
  }

  /** Different clusters share no sector. */
  lemma DataApart(g: Geometry, c: nat, c': nat)
    requires 2 <= c < c'
    ensures g.DataLba(c) + g.clusterSectors <= g.DataLba(c')
  {
    Rows(c - 2, c' - 2, g.clusterSectors);
  }

  // ---------------------------------------------------------------- the volume on a disk

  /** A directory slot, as far as the driver interprets it. */
  datatype Dirent = Dirent(name: seq<Byte>, attr: Byte, first: nat, size: nat)

  function DirentAt(sector: seq<Byte>, i: nat): Dirent {
    var at := i * SLOT_BYTES;
    Dirent(if at + 11 <= |sector| then sector[at..at + 11] else [], At(sector, at + 11), Le16(sector, at + 26), Le32(sector, at + 28))
  }

  /** The table, the root directory, and the data clusters. */
  datatype Volume = Volume(fat: seq<nat>, slots: seq<Dirent>, clusters: seq<seq<Byte>>)

  ghost predicate DiskFits(disk: seq<seq<Byte>>, g: Geometry) {
    g.Consistent() && g.total <= |disk| && forall s <- disk :: |s| == SECTOR
  }

  function SectorAt(disk: seq<seq<Byte>>, lba: nat): seq<Byte> { if lba < |disk| then disk[lba] else [] }

  function FatAt(disk: seq<seq<Byte>>, g: Geometry, c: nat): nat {
    Le16(SectorAt(disk, g.FatLba(0, c / ENTRIES_PER_SECTOR)), c % ENTRIES_PER_SECTOR * 2)
  }

  function SlotAt(disk: seq<seq<Byte>>, g: Geometry, i: nat): Dirent {
    DirentAt(SectorAt(disk, g.RootLba(i / SLOTS_PER_SECTOR)), i % SLOTS_PER_SECTOR)
  }

  function ClusterAt(disk: seq<seq<Byte>>, g: Geometry, c: nat): seq<Byte> {
    if c < 2 || g.DataLba(c) + g.clusterSectors > |disk| then []
    else Flat(disk[g.DataLba(c)..g.DataLba(c) + g.clusterSectors])
  }

  ghost function VolumeOf(disk: seq<seq<Byte>>, g: Geometry): (v: Volume)
    requires g.Consistent()
    ensures |v.fat| == g.fatSectors * ENTRIES_PER_SECTOR && |v.slots| == g.Slots() && |v.clusters| == g.Clusters()
  {
    Volume(
      seq(g.fatSectors * ENTRIES_PER_SECTOR, c requires 0 <= c => FatAt(disk, g, c)),
      seq(g.Slots(), i requires 0 <= i => SlotAt(disk, g, i)),
      seq(g.Clusters(), c requires 0 <= c => ClusterAt(disk, g, c)))
  }

  /** All copies of the table are the same. */
  ghost predicate Mirrored(disk: seq<seq<Byte>>, g: Geometry) {
    forall copy: nat, s: nat {:trigger g.FatLba(copy, s)} :: copy < g.fats && s < g.fatSectors ==>
      SectorAt(disk, g.FatLba(copy, s)) == SectorAt(disk, g.FatLba(0, s))
  }

  lemma ClusterLength(disk: seq<seq<Byte>>, g: Geometry, c: nat)
    requires DiskFits(disk, g) && 2 <= c < g.Clusters()
    ensures |VolumeOf(disk, g).clusters[c]| == g.ClusterBytes()
    ensures g.DataLba(c) + g.clusterSectors <= |disk|
    ensures VolumeOf(disk, g).clusters[c] == Flat(disk[g.DataLba(c)..g.DataLba(c) + g.clusterSectors])
  {
    DataInside(g, c);
    hide Geometry.Consistent, Geometry.Clusters, Geometry.DataStart, Geometry.DataLba, FatAt, SlotAt;
    var part := disk[g.DataLba(c)..g.DataLba(c) + g.clusterSectors];
    assert forall s <- part :: s in disk;
    assert VolumeOf(disk, g).clusters[c] == ClusterAt(disk, g, c) == Flat(part);
  }

  // ---------------------------------------------------------------- what one write changes

  predicate InTable(g: Geometry, lba: nat) { g.reserved <= lba < g.RootStart() }

  /** Sectors outside the table hold the directory and the data. */
  lemma OutsideTable(disk: seq<seq<Byte>>, disk': seq<seq<Byte>>, g: Geometry)
    requires g.Consistent() && |disk'| == |disk|
    requires forall lba: nat :: lba < |disk| && !InTable(g, lba) ==> disk'[lba] == disk[lba]
    ensures VolumeOf(disk', g).slots == VolumeOf(disk, g).slots && VolumeOf(disk', g).clusters == VolumeOf(disk, g).clusters
  {
    SlotsKept(disk, disk', g);
    ClustersKept(disk, disk', g);
  }

  /** One table sector with one entry replaced. */
  function EntryPut(s: seq<Byte>, c: nat, v: nat): seq<Byte> {
    if |s| == SECTOR then Put16(s, c % ENTRIES_PER_SECTOR * 2, v) else s
  }

  /** An entry replaced in the first `copies` copies of the table, and nothing else touched. */
  ghost predicate EntryWritten(disk: seq<seq<Byte>>, g: Geometry, c: nat, v: nat, copies: nat, disk': seq<seq<Byte>>) {
    && |disk'| == |disk|
    && (forall lba: nat :: lba < |disk| && !InTable(g, lba) ==> disk'[lba] == disk[lba])
    && (forall copy: nat, s: nat {:trigger g.FatLba(copy, s)} :: copy < g.fats && s < g.fatSectors ==>
          SectorAt(disk', g.FatLba(copy, s)) ==
            if copy < copies && s == c / ENTRIES_PER_SECTOR then EntryPut(SectorAt(disk, g.FatLba(copy, s)), c, v)
            else SectorAt(disk, g.FatLba(copy, s)))
    && (forall lba: nat :: lba < |disk| ==> |disk'[lba]| == |disk[lba]|)
  }

  /** Written in every copy, it is one entry of the table that changes, and the copies stay the same. */
  lemma EntryWrittenVolume(disk: seq<seq<Byte>>, g: Geometry, c: nat, v: nat, disk': seq<seq<Byte>>)
    requires DiskFits(disk, g) && Mirrored(disk, g) && v < 0x1_0000
    requires c < g.fatSectors * ENTRIES_PER_SECTOR && EntryWritten(disk, g, c, v, g.fats, disk')
    ensures DiskFits(disk', g) && Mirrored(disk', g)
    ensures VolumeOf(disk', g) == VolumeOf(disk, g).(fat := VolumeOf(disk, g).fat[c := v])
  {
    OutsideTable(disk, disk', g);
    forall b: nat | b < g.fatSectors * ENTRIES_PER_SECTOR
      ensures FatAt(disk', g, b) == if b == c then v else FatAt(disk, g, b)
    {
      EntryWrittenAt(disk, g, c, v, disk', b);
    }
  }

  lemma EntryWrittenAt(disk: seq<seq<Byte>>, g: Geometry, c: nat, v: nat, disk': seq<seq<Byte>>, b: nat)
    requires DiskFits(disk, g) && v < 0x1_0000
    requires c < g.fatSectors * ENTRIES_PER_SECTOR && EntryWritten(disk, g, c, v, g.fats, disk')
    requires b < g.fatSectors * ENTRIES_PER_SECTOR
    ensures FatAt(disk', g, b) == if b == c then v else FatAt(disk, g, b)
  {
    var s := b / ENTRIES_PER_SECTOR;
    FatInside(g, 0, s);
    var lba := g.FatLba(0, s);
    assert disk[lba] in disk;
    if s == c / ENTRIES_PER_SECTOR {
      Put16Le16(disk[lba], c % ENTRIES_PER_SECTOR * 2, v);
    }
  }

  /** One directory sector rewritten so that one slot changes. */
  lemma SlotWrittenVolume(disk: seq<seq<Byte>>, g: Geometry, i: nat, sector: seq<Byte>)
    requires DiskFits(disk, g) && Mirrored(disk, g) && i < g.Slots() && |sector| == SECTOR
    requires forall k: nat :: k < SLOTS_PER_SECTOR && k != i % SLOTS_PER_SECTOR ==>
      DirentAt(sector, k) == DirentAt(SectorAt(disk, g.RootLba(i / SLOTS_PER_SECTOR)), k)
    ensures var disk' := disk[g.RootLba(i / SLOTS_PER_SECTOR) := sector];
      && DiskFits(disk', g) && Mirrored(disk', g)
      && VolumeOf(disk', g) == VolumeOf(disk, g).(slots := VolumeOf(disk, g).slots[i := DirentAt(sector, i % SLOTS_PER_SECTOR)])
  {
    var lba := g.RootLba(i / SLOTS_PER_SECTOR);
    var disk' := disk[lba := sector];
    TableKept(disk, disk', g);
    ClustersKept(disk, disk', g);
    forall j: nat | j < g.Slots()
      ensures SlotAt(disk', g, j) == if j == i then DirentAt(sector, i % SLOTS_PER_SECTOR) else SlotAt(disk, g, j)
    {
    }
  }

  lemma TableKept(disk: seq<seq<Byte>>, disk': seq<seq<Byte>>, g: Geometry)
    requires g.Consistent() && |disk'| == |disk|
    requires forall lba: nat :: lba < |disk| && InTable(g, lba) ==> disk'[lba] == disk[lba]
    ensures VolumeOf(disk', g).fat == VolumeOf(disk, g).fat
    ensures Mirrored(disk, g) ==> Mirrored(disk', g)
  {
    forall copy: nat, s: nat | copy < g.fats && s < g.fatSectors
      ensures SectorAt(disk', g.FatLba(copy, s)) == SectorAt(disk, g.FatLba(copy, s))
    {
      FatInside(g, copy, s);
    }
  }

  lemma ClustersKept(disk: seq<seq<Byte>>, disk': seq<seq<Byte>>, g: Geometry)
    requires g.Consistent() && |disk'| == |disk|
    requires forall lba: nat :: lba < |disk| && lba >= g.DataStart() ==> disk'[lba] == disk[lba]
    ensures VolumeOf(disk', g).clusters == VolumeOf(disk, g).clusters
  {
    forall c: nat | c < g.Clusters()
      ensures ClusterAt(disk', g, c) == ClusterAt(disk, g, c)
    {
      if c >= 2 { DataInside(g, c); }
      SameRange(disk, disk', g, c);
    }
  }

  lemma SameRange(disk: seq<seq<Byte>>, disk': seq<seq<Byte>>, g: Geometry, c: nat)
    requires g.Consistent() && |disk'| == |disk| && c < g.Clusters()
    requires c >= 2 ==> forall lba: nat :: g.DataLba(c) <= lba < g.DataLba(c) + g.clusterSectors && lba < |disk| ==> disk'[lba] == disk[lba]
    ensures ClusterAt(disk', g, c) == ClusterAt(disk, g, c)
  {
    if c >= 2 && g.DataLba(c) + g.clusterSectors <= |disk| {
      assert disk'[g.DataLba(c)..g.DataLba(c) + g.clusterSectors] == disk[g.DataLba(c)..g.DataLba(c) + g.clusterSectors];
    }
  }

  /** The sectors of one cluster rewritten. */
  lemma ClusterWrittenVolume(disk: seq<seq<Byte>>, g: Geometry, c: nat, disk': seq<seq<Byte>>)
    requires DiskFits(disk, g) && Mirrored(disk, g) && 2 <= c < g.Clusters() && |disk'| == |disk|
    requires forall lba: nat :: lba < |disk| && !(g.DataLba(c) <= lba < g.DataLba(c) + g.clusterSectors) ==> disk'[lba] == disk[lba]
    requires forall s <- disk' :: |s| == SECTOR
    ensures DiskFits(disk', g) && Mirrored(disk', g)
    ensures VolumeOf(disk', g) == VolumeOf(disk, g).(clusters := VolumeOf(disk, g).clusters[c := ClusterAt(disk', g, c)])
  {
    DataInside(g, c);
    TableKept(disk, disk', g);
    SlotsKept(disk, disk', g);
    forall b: nat | b < g.Clusters() && b != c
      ensures ClusterAt(disk', g, b) == ClusterAt(disk, g, b)
    {
      if 2 <= b < c { DataApart(g, b, c); } else if b > c { DataApart(g, c, b); }
      SameRange(disk, disk', g, b);
    }
  }

  lemma SlotsKept(disk: seq<seq<Byte>>, disk': seq<seq<Byte>>, g: Geometry)
    requires g.Consistent() && |disk'| == |disk|
    requires forall lba: nat :: lba < |disk| && g.RootStart() <= lba < g.DataStart() ==> disk'[lba] == disk[lba]
    ensures VolumeOf(disk', g).slots == VolumeOf(disk, g).slots
  {
  }
}
