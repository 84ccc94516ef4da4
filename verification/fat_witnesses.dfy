/** Disks on which the FAT16 driver does not do what it should. */
module FatWitnesses {
  import opened Options
  import opened Bytes
  import opened FatLayout
  import opened Fat16
  import opened FatFiles
  import opened FatStore
  import opened FatSystem
  import FatNames
  import FatRead

  // ---------------------------------------------------------------- a disk of four sectors

  function Zeros(n: nat): seq<Byte> { seq(n, _ => 0) }

  /** A boot sector: 512-byte sectors, one to a cluster, one reserved, one table of one sector, 16 root entries, four
      sectors in all. */
  function BootSector(): seq<Byte> {
    Zeros(SECTOR)[12 := 2][13 := 1][14 := 1][16 := 1][17 := 16][19 := 4][22 := 1]
  }

  const SMALL := Geometry(1, 1, 1, 16, 1, 4)

  /** The table, with a value for cluster 2, the only one. */
  function TableSector(next: nat): seq<Byte>
    requires next < 0x1_0000
  {
    Put16(Zeros(SECTOR), 4, next)
  }

  /** The name A. */
  function OneName(): seq<Byte> { [0x41] }

  /** A root directory with one file: A, of one byte, in cluster 2. */
  function RootSector(): seq<Byte> {
    FatNames.FatName(OneName()) + [0x20] + Zeros(14) + [2, 0, 1, 0, 0, 0] + Zeros(480)
  }

  function SmallDisk(next: nat): seq<seq<Byte>>
    requires next < 0x1_0000
  {
    [BootSector(), TableSector(next), RootSector(), Zeros(SECTOR)[0 := 7]]
  }

  lemma SmallBoot()
    ensures |BootSector()| == SECTOR && Le16(BootSector(), 11) == 512 && Le16(BootSector(), 11) == SECTOR && BootGeometry(BootSector()) == SMALL
  {
  }

  lemma SmallGeometry()
    ensures SMALL.Consistent() && SMALL.ClusterBytes() == SECTOR && SMALL.Clusters() == 3 && SMALL.Slots() == 16
  {
  }

  lemma SmallSectors(next: nat)
    requires next < 0x1_0000
    ensures |SmallDisk(next)| == 4 && forall i :: 0 <= i < 4 ==> |SmallDisk(next)[i]| == SECTOR
    ensures SmallDisk(next)[0] == BootSector() && SmallDisk(next)[1] == TableSector(next) && SmallDisk(next)[2] == RootSector()
  {
  }

  lemma SmallFits(next: nat)
    requires next < 0x1_0000
    ensures DiskFits(SmallDisk(next), SMALL) && Mirrored(SmallDisk(next), SMALL)
  {
    SmallGeometry();
    SmallSectors(next);
    hide SmallDisk, BootSector, TableSector, RootSector, Zeros, Geometry.Consistent;
    var disk := SmallDisk(next);
    forall s <- disk ensures |s| == SECTOR { var i :| 0 <= i < 4 && disk[i] == s; }
    forall copy: nat, s: nat | copy < SMALL.fats && s < SMALL.fatSectors
      ensures SectorAt(disk, SMALL.FatLba(copy, s)) == SectorAt(disk, SMALL.FatLba(0, s))
    {
      assert copy == 0;
    }
  }

  lemma TableEntries(next: nat, c: nat)
    requires next < 0x1_0000 && c < 256
    ensures Le16(TableSector(next), 2 * c) == if c == 2 then next else 0
  {
    Put16Le16(Zeros(SECTOR), 4, next);
  }

  lemma SmallTable(next: nat)
    requires next < 0x1_0000
    ensures SMALL.Consistent() && |VolumeOf(SmallDisk(next), SMALL).fat| == 256
    ensures forall c :: 0 <= c < 256 ==> VolumeOf(SmallDisk(next), SMALL).fat[c] == if c == 2 then next else 0
  {
    SmallGeometry();
    SmallSectors(next);
    hide SmallDisk, TableSector, Geometry.Consistent, SlotAt, ClusterAt;
    var disk := SmallDisk(next);
    forall c: nat | c < 256
      ensures FatAt(disk, SMALL, c) == if c == 2 then next else 0
    {
      TableEntries(next, c);
      assert c / ENTRIES_PER_SECTOR == 0 && c % ENTRIES_PER_SECTOR * 2 == 2 * c;
    }
  }

  lemma RootEntries(i: nat)
    requires i < 16
    ensures i == 0 ==> DirentAt(RootSector(), i) == Dirent(FatNames.FatName(OneName()), 0x20, 2, 1)
    ensures i > 0 ==> |DirentAt(RootSector(), i).name| == 11 && FirstByte(DirentAt(RootSector(), i)) == 0
  {
    hide FatNames.FatName;
    var root := RootSector();
    assert |root| == SECTOR && root[..11] == FatNames.FatName(OneName());
    if i > 0 { assert root[32 * i] == 0; }
  }

  lemma SmallDirectory(next: nat)
    requires next < 0x1_0000
    ensures SMALL.Consistent() && |VolumeOf(SmallDisk(next), SMALL).slots| == 16
    ensures VolumeOf(SmallDisk(next), SMALL).slots[0] == Dirent(FatNames.FatName(OneName()), 0x20, 2, 1)
    ensures forall i :: 1 <= i < 16 ==>
      |VolumeOf(SmallDisk(next), SMALL).slots[i].name| == 11 && FirstByte(VolumeOf(SmallDisk(next), SMALL).slots[i]) == 0
  {
    SmallGeometry();
    SmallSectors(next);
    hide SmallDisk, RootSector, FatNames.FatName, DirentAt, Geometry.Consistent, FatAt, ClusterAt;
    var disk := SmallDisk(next);
    forall i: nat | i < 16
      ensures SlotAt(disk, SMALL, i) == DirentAt(RootSector(), i)
      ensures i == 0 ==> SlotAt(disk, SMALL, i) == Dirent(FatNames.FatName(OneName()), 0x20, 2, 1)
      ensures i > 0 ==> |SlotAt(disk, SMALL, i).name| == 11 && FirstByte(SlotAt(disk, SMALL, i)) == 0
    {
      RootEntries(i);
      assert i / SLOTS_PER_SECTOR == 0 && i % SLOTS_PER_SECTOR == i;
    }
  }

  lemma NameStarts()
    ensures FatNames.FatName(OneName())[0] == 0x41
  {
  }

  // ---------------------------------------------------------------- an overwrite that does not fit

  function OneChain(): Chains { [[2]] + seq(15, _ => []) }

  /** The disk holds one file, and its only cluster is taken. */
  lemma FullDiskHolds()
    ensures Holds(SmallDisk(END_MARK), SMALL, OneChain(), map[2 := Place(0, 0)])
    ensures Regular(VolumeOf(SmallDisk(END_MARK), SMALL).slots[0])
  {
    SmallGeometry();
    SmallFits(END_MARK);
    SmallTable(END_MARK);
    SmallDirectory(END_MARK);
    NameStarts();
    ClusterLength(SmallDisk(END_MARK), SMALL, 2);
    hide SmallDisk, VolumeOf, FatNames.FatName, DiskFits, Mirrored, Geometry.ClusterBytes, Geometry.Clusters, Geometry.Slots, Geometry.Consistent;
    OneFileKept(VolumeOf(SmallDisk(END_MARK), SMALL));
  }

  lemma OneFileKept(v: Volume)
    requires |v.fat| == 256 && v.fat[2] == END_MARK && |v.clusters| == 3 && |v.clusters[2]| == SECTOR && |v.slots| == 16
    requires |v.slots[0].name| == 11 && v.slots[0].name[0] == 0x41 && v.slots[0] == Dirent(v.slots[0].name, 0x20, 2, 1)
    requires forall i :: 1 <= i < 16 ==> |v.slots[i].name| == 11 && FirstByte(v.slots[i]) == 0
    ensures Kept(v, SECTOR, OneChain(), map[2 := Place(0, 0)], None) && Regular(v.slots[0])
  {
    assert Needed(1, SECTOR) == 1;
    assert Linked(v.fat, [2]);
  }

  lemma FullStore(v: Volume)
    requires Kept(v, SECTOR, OneChain(), map[2 := Place(0, 0)], None) && |v.fat| == 256 && v.fat[2] == END_MARK
    requires |v.clusters| == 3 && |v.slots| == 16
    requires v.slots[0] == Dirent(FatNames.FatName(OneName()), 0x20, 2, 1) && Regular(v.slots[0])
    ensures Damages(StoreOf(v, OneChain()), Write(OneName(), seq(600, _ => 1)), SECTOR)
  {
    hide FatNames.FatName, Regular;
    var name := FatNames.FatName(OneName());
    FilesOnly(v, OneChain(), name);
    LookupFinds(v.slots, 0, 0);
    assert FreeClusters(v) == {};
    assert Joined(v.clusters, [2]) == v.clusters[2];
    assert |FileAt(v, OneChain(), 0)| == 1;
    assert Needed(1, SECTOR) == 1 && Needed(88, SECTOR) == 1 && Needed(600, SECTOR) == 2;
  }

  lemma FullDiskDamaged()
    ensures SMALL.Consistent() && SMALL.ClusterBytes() > 0
    ensures Damages(StoreOf(VolumeOf(SmallDisk(END_MARK), SMALL), OneChain()), Write(OneName(), seq(600, _ => 1)), SMALL.ClusterBytes())
  {
    SmallGeometry();
    SmallTable(END_MARK);
    SmallDirectory(END_MARK);
    FullDiskHolds();
    hide SmallDisk, VolumeOf, FatNames.FatName, DiskFits, Mirrored, Kept, Damages, StoreOf, Regular;
    hide Geometry.ClusterBytes, Geometry.Clusters, Geometry.Slots, Geometry.Consistent;
    FullStore(VolumeOf(SmallDisk(END_MARK), SMALL));
  }

  /** A driver on a disk of these sectors, mounted. */
  method MountSmall(next: nat) returns (fs: Driver)
    requires next < 0x1_0000
    ensures fresh(fs) && fresh(fs.disk) && fs.Valid() && fs.disk[..] == SmallDisk(next) && fs.g == SMALL
  {
    hide *;
    SmallBoot();
    SmallFits(next);
    SmallSectors(next);
    var sectors := SmallDisk(next);
    var disk := new seq<Byte>[4](i requires 0 <= i < 4 => sectors[i]);
    assert disk[..] == sectors;
    fs := new Driver(disk);
    var ok := fs.Mount();
  }

  /** Writing 600 bytes over the only file of a full disk fails, after the file's cluster has been freed, and what is left
      is no volume, whatever chains are tried. */
  method OverwriteDamages() returns (fs: Driver, ok: bool)
    ensures fs.Valid() && !ok && forall ch, own :: !Kept(fs.Vol(), fs.g.ClusterBytes(), ch, own, None)
  {
    FullDiskHolds();
    FullDiskDamaged();
    hide SmallDisk, VolumeOf, FatNames.FatName, DiskFits, Mirrored, Kept, Geometry.ClusterBytes, Geometry.Consistent, FreeClusters, Files;
    fs := MountSmall(END_MARK);
    var system := new FileSystem(fs, OneChain(), map[2 := Place(0, 0)]);
    ok := system.Write(OneName(), seq(600, _ => 1));
  }

  // ---------------------------------------------------------------- a read that never ends

  lemma {:induction false} AlwaysTwo(fat: seq<nat>, n: nat)
    requires |fat| > 2 && fat[2] == 2
    ensures Follow(fat, 2, n) == 2
  {
    if n > 0 { AlwaysTwo(fat, n - 1); }
  }

  lemma CyclicDisk()
    ensures SMALL.Consistent() && LinksInside(VolumeOf(SmallDisk(2), SMALL).fat, SMALL.Clusters()) && SMALL.Clusters() == 3
    ensures |VolumeOf(SmallDisk(2), SMALL).fat| == 256 && VolumeOf(SmallDisk(2), SMALL).fat[2] == 2
    ensures |VolumeOf(SmallDisk(2), SMALL).slots| == 16
    ensures Lookup(VolumeOf(SmallDisk(2), SMALL).slots, FatNames.FatName(OneName()), 0) == Some(0)
    ensures VolumeOf(SmallDisk(2), SMALL).slots[0].first == 2 && VolumeOf(SmallDisk(2), SMALL).slots[0].size == 1
  {
    SmallGeometry();
    SmallTable(2);
    SmallDirectory(2);
    NameStarts();
    hide SmallDisk, VolumeOf, FatNames.FatName, Geometry.Consistent, Geometry.Slots, Geometry.Clusters;
    LookupFinds(VolumeOf(SmallDisk(2), SMALL).slots, 0, 0);
  }

  /** The only file's cluster is followed by itself. All links are in range; reading the file into a buffer without room
      is not over after any number of turns. */
  method ReadGoesOn(turns: nat) returns (found: bool, over: bool)
    ensures found && !over
  {
    CyclicDisk();
    hide SmallDisk, VolumeOf, FatNames.FatName, DiskFits, Mirrored, Geometry.Consistent, Geometry.Slots, Geometry.ClusterBytes;
    hide LinksInside, Lookup, Geometry.Clusters, Follow;
    var fs := MountSmall(2);
    var first, size;
    found, first, size := fs.FindFile(OneName());
    var buffer := new Byte[0];
    AlwaysTwo(fs.Vol().fat, turns);
    over := FatRead.ReadFileFor(fs, first, size, buffer, turns);
  }

  // ---------------------------------------------------------------- a mount that is refused

  /** A volume is mounted, and its boot sector replaced by one with sectors of 1024 bytes. Mounting is refused, the volume
      counts as mounted still, and the parameters in use no longer belong to it. */
  method RemountRefused() returns (fs: Driver, before: bool, ok: bool)
    ensures before && !ok && fs.mounted && fs.bpb != fs.g && !fs.Valid()
  {
    fs := MountSmall(END_MARK);
    before := fs.mounted;
    OtherBoot();
    hide BootSector, BootGeometry;
    fs.disk[0] := BootSector()[12 := 4][13 := 2];
    ok := fs.Mount();
  }

  lemma OtherBoot()
    ensures |BootSector()| == SECTOR
    ensures Le16(BootSector()[12 := 4][13 := 2], 11) == 1024 && BootGeometry(BootSector()[12 := 4][13 := 2]) != SMALL
  {
  }
}
