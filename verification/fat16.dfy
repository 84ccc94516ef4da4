/** The FAT16 driver of kernel/fat16.c below the file level: mounting, sectors, table entries,
    cluster allocation and chains, over an array of sectors whose reads and writes succeed. */
module Fat16 {
  import opened Options
  import opened Bytes
  import opened FatLayout
  import FatNames

  // ---------------------------------------------------------------- chains of clusters

  /** Whether a table value names a next cluster: neither free, nor reserved, nor an end mark. */
  predicate IsLink(v: nat) { 2 <= v < FIRST_END }

  /** Every link in the table names a cluster of the volume. */
  ghost predicate LinksInside(fat: seq<nat>, clusters: nat) {
    clusters <= |fat| && forall i :: 2 <= i < clusters && IsLink(fat[i]) ==> fat[i] < clusters
  }

  /** The k-th cluster after c; past the end of the chain, the value that ended it. */
  function Follow(fat: seq<nat>, c: nat, k: nat): nat {
    if k == 0 then c
    else
      var v := Follow(fat, c, k - 1);
      if IsLink(v) && v < |fat| then fat[v] else v
  }

  /** The chain from c ends. */
  ghost predicate Ends(fat: seq<nat>, c: nat) { exists n: nat :: !IsLink(Follow(fat, c, n)) }

  lemma {:induction false} FollowInside(fat: seq<nat>, clusters: nat, c: nat, k: nat)
    requires LinksInside(fat, clusters) && (IsLink(c) ==> c < clusters)
    ensures IsLink(Follow(fat, c, k)) ==> Follow(fat, c, k) < clusters
  {
    if k > 0 { FollowInside(fat, clusters, c, k - 1); }
  }

  /** Once ended, ended. */
  lemma {:induction false} FollowEnded(fat: seq<nat>, c: nat, k: nat, n: nat)
    requires k <= n && !IsLink(Follow(fat, c, k))
    ensures Follow(fat, c, n) == Follow(fat, c, k)
    decreases n
  {
    if k < n { FollowEnded(fat, c, k, n - 1); }
  }

  /** The table after the chain from c is freed, for any table whose links stay inside, cyclic or not:
      a cluster is zeroed when it is visited, so no chain is walked for ever. */
  function FreeFrom(fat: seq<nat>, c: nat): seq<nat>
    decreases NonZero(fat), if IsLink(c) then 1 else 0
  {
    if !IsLink(c) || c >= |fat| then fat
    else
      ZeroedOne(fat, c);
      FreeFrom(fat[c := FREE], fat[c])
  }

  function NonZero(fat: seq<nat>): nat {
    if fat == [] then 0 else NonZero(fat[..|fat| - 1]) + if fat[|fat| - 1] != FREE then 1 else 0
  }

  /** Zeroing an entry lowers the count of used entries, unless it was zero already. */
  lemma {:induction false} ZeroedOne(fat: seq<nat>, c: nat)
    requires c < |fat|
    ensures NonZero(fat[c := FREE]) == NonZero(fat) - if fat[c] != FREE then 1 else 0
  {
    var last := |fat| - 1;
    if c < last {
      ZeroedOne(fat[..last], c);
      assert fat[c := FREE][..last] == fat[..last][c := FREE];
    } else {
      assert fat[c := FREE][..last] == fat[..last];
    }
  }

  // ---------------------------------------------------------------- the root directory

  const DELETED := 0xE5

  function FirstByte(d: Dirent): Byte { At(d.name, 0) }

  /** A slot that ends the directory or was deleted. */
  predicate Vacant(d: Dirent) { FirstByte(d) == 0 || FirstByte(d) == DELETED }

  /** A file, as opposed to a volume label or a directory. */
  predicate Regular(d: Dirent) { !Vacant(d) && d.attr / 8 % 2 == 0 && d.attr / 16 % 2 == 0 }

  /** The slot of the file called `name`, looking from slot i to the end of the directory. */
  function Lookup(slots: seq<Dirent>, name: seq<Byte>, i: nat): Option<nat>
    decreases |slots| - i
  {
    if i >= |slots| || FirstByte(slots[i]) == 0 then None
    else if Regular(slots[i]) && slots[i].name == name then Some(i)
    else Lookup(slots, name, i + 1)
  }

  /** The first vacant slot. */
  function FirstVacant(slots: seq<Dirent>, i: nat): Option<nat>
    decreases |slots| - i
  {
    if i >= |slots| then None else if Vacant(slots[i]) then Some(i) else FirstVacant(slots, i + 1)
  }

  // ---------------------------------------------------------------- the driver

  /** The parameters in a boot sector. */
  function BootGeometry(raw: seq<Byte>): Geometry {
    Geometry(Le16(raw, 14), At(raw, 16), Le16(raw, 22), Le16(raw, 17), At(raw, 13), Le16(raw, 19))
  }

  class Driver {
    const disk: array<seq<Byte>>
    var sectorSize: nat  // the boot sector as last read: its sector size and the rest
    var bpb: Geometry
    var g: Geometry      // what the sector numbers derived at the last mount go by
    var mounted: bool

    ghost predicate Valid()
      reads this, disk
    {
      mounted && sectorSize == SECTOR && bpb == g && DiskFits(disk[..], g) && Mirrored(disk[..], g)
    }

    ghost function Vol(): Volume
      reads this, disk
      requires Valid()
    {
      VolumeOf(disk[..], g)
    }

    constructor (disk: array<seq<Byte>>)
      ensures this.disk == disk && !mounted
    {
      this.disk, this.mounted := disk, false;
      this.sectorSize, this.bpb, this.g := 0, Geometry(0, 0, 0, 0, 0, 0), Geometry(0, 0, 0, 0, 0, 0);
    }

    /** fat16_mount. The parameters are copied from the boot sector before its sector size, the only thing checked, is
        looked at; so a refusal takes a volume that was mounted before out of service. */
    method Mount() returns (ok: bool)
      requires disk.Length > 0 && |disk[0]| == SECTOR
      modifies this
      ensures sectorSize == Le16(disk[0], 11) && bpb == BootGeometry(disk[0])
      ensures ok <==> sectorSize == 512
      ensures ok ==> mounted && g == bpb
      ensures !ok ==> mounted == old(mounted) && g == old(g)
      ensures Valid() <==> ok && DiskFits(disk[..], bpb) && Mirrored(disk[..], bpb)
    {
      var raw := disk[0];
      sectorSize, bpb := Le16(raw, 11), BootGeometry(raw);
      if sectorSize != SECTOR { return false; }
      g := bpb;
      mounted := true;
      return true;
    }

    /** ata_read_sectors. */
    method ReadSectors(lba: nat, count: nat) returns (buffer: seq<Byte>)
      requires lba + count <= disk.Length
      ensures buffer == Flat(disk[lba..lba + count])
    {
      buffer := [];
      for s := 0 to count
        invariant buffer == Flat(disk[lba..lba + s])
      {
        FlatAppend(disk[lba..lba + s], disk[lba + s]);
        assert disk[lba..lba + s] + [disk[lba + s]] == disk[lba..lba + s + 1];
        buffer := buffer + disk[lba + s];
      }
    }

    /** ata_write_sectors. */
    method WriteSectors(lba: nat, count: nat, buffer: seq<Byte>)
      requires lba + count <= disk.Length && |buffer| == count * SECTOR
      modifies disk
      ensures Flat(disk[lba..lba + count]) == buffer
      ensures forall i: nat :: i < disk.Length && !(lba <= i < lba + count) ==> disk[i] == old(disk[i])
      ensures forall i: nat :: lba <= i < lba + count ==> |disk[i]| == SECTOR
    {
      for s := 0 to count
        invariant Flat(disk[lba..lba + s]) == buffer[..s * SECTOR]
        invariant forall i: nat :: i < disk.Length && !(lba <= i < lba + s) ==> disk[i] == old(disk[i])
        invariant forall i: nat :: lba <= i < lba + s ==> |disk[i]| == SECTOR
      {
        ghost var before := disk[lba..lba + s];
        disk[lba + s] := buffer[s * SECTOR..(s + 1) * SECTOR];
        assert disk[lba..lba + s + 1] == before + [disk[lba + s]];
        FlatAppend(before, disk[lba + s]);
      }
    }

    method FatReadEntry(c: nat) returns (v: nat)
      requires Valid() && c < |Vol().fat|
      ensures v == Vol().fat[c]
    {
      var sector := g.reserved + c * 2 / SECTOR;
      EntryPlace(c);
      FatInside(g, 0, c / ENTRIES_PER_SECTOR);
      hide Mirrored, SlotAt, ClusterAt, Geometry.DataStart, Geometry.Clusters;
      assert Vol().fat[c] == FatAt(disk[..], g, c);
      v := Le16(disk[sector], c * 2 % SECTOR);
    }

    /** fat_write_entry: in every copy of the table. */
    method FatWriteEntry(c: nat, v: nat)
      requires Valid() && c < |Vol().fat| && v < 0x1_0000
      modifies disk
      ensures Valid() && Vol() == old(Vol()).(fat := old(Vol().fat)[c := v])
    {
      hide Mirrored, EntryWritten, Geometry.Clusters;
      ghost var disk0 := disk[..];
      NothingWritten(disk0, g, c, v);
      for copy := 0 to g.fats
        invariant EntryWritten(disk0, g, c, v, copy, disk[..])
      {
        FatWriteCopy(c, v, copy, disk0);
      }
      EntryWrittenVolume(disk0, g, c, v, disk[..]);
    }

    method FatWriteCopy(c: nat, v: nat, copy: nat, ghost disk0: seq<seq<Byte>>)
      requires DiskFits(disk0, g) && c < g.fatSectors * ENTRIES_PER_SECTOR && copy < g.fats
      requires EntryWritten(disk0, g, c, v, copy, disk[..])
      modifies disk
      ensures EntryWritten(disk0, g, c, v, copy + 1, disk[..])
    {
      hide EntryWritten;
      var inFat, index := c * 2 / SECTOR, c * 2 % SECTOR;
      EntryPlace(c);
      FatInside(g, copy, inFat);
      var lba := g.FatLba(copy, inFat);
      ghost var before := disk[..];
      WrittenShape(disk0, g, c, v, copy, before, lba);
      disk[lba] := Put16(disk[lba], index, v);
      assert disk[..] == before[lba := EntryPut(before[lba], c, v)];
      EntryWrittenStep(disk0, g, c, v, copy, before, disk[..]);
    }

    /** fat_alloc_cluster: claims the lowest free cluster with an end mark. */
    method FatAllocCluster() returns (ok: bool, cluster: nat)
      requires Valid()
      modifies disk
      ensures Valid()
      ensures ok ==> 2 <= cluster < g.Clusters() && old(Vol()).fat[cluster] == 0
      ensures ok ==> forall c :: 2 <= c < cluster ==> old(Vol()).fat[c] != 0
      ensures ok ==> Vol() == old(Vol()).(fat := old(Vol().fat)[cluster := 0xFFFF])
      ensures !ok ==> Vol() == old(Vol()) && forall c :: 2 <= c < g.Clusters() ==> Vol().fat[c] != 0
    {
      hide VolumeOf, Mirrored;
      var c := 2;
      while c < g.Clusters()
        invariant 2 <= c <= g.Clusters() && disk[..] == old(disk[..])
        invariant forall b :: 2 <= b < c ==> Vol().fat[b] != FREE
      {
        var v := FatReadEntry(c);
        if v == FREE {
          FatWriteEntry(c, END_MARK);
          return true, c;
        }
        c := c + 1;
      }
      return false, 0;
    }

    /** fat_free_chain. It ends on every table whose links stay inside the volume. */
    method FatFreeChain(start: nat)
      requires Valid() && LinksInside(Vol().fat, g.Clusters()) && (IsLink(start) ==> start < g.Clusters())
      modifies disk
      ensures Valid() && Vol() == old(Vol()).(fat := FreeFrom(old(Vol()).fat, start))
    {
      hide VolumeOf, Mirrored;
      var cluster: nat := start;
      while IsLink(cluster)
        invariant Valid() && Vol() == old(Vol()).(fat := Vol().fat) && LinksInside(Vol().fat, g.Clusters())
        invariant IsLink(cluster) ==> cluster < g.Clusters()
        invariant FreeFrom(Vol().fat, cluster) == FreeFrom(old(Vol()).fat, start)
        decreases NonZero(Vol().fat), if IsLink(cluster) then 1 else 0
      {
        ghost var fat := Vol().fat;
        ZeroedOne(fat, cluster);
        var next := FatReadEntry(cluster);
        FatWriteEntry(cluster, FREE);
        cluster := next;
      }
    }

    /** fat16_find_file. */
    method FindFile(filename: seq<Byte>) returns (found: bool, first: nat, size: nat)
      requires Valid()
      ensures found <==> Lookup(Vol().slots, FatNames.FatName(filename), 0).Some?
      ensures found ==> Lookup(Vol().slots, FatNames.FatName(filename), 0).value < |Vol().slots|
      ensures found ==> first == Vol().slots[Lookup(Vol().slots, FatNames.FatName(filename), 0).value].first
      ensures found ==> size == Vol().slots[Lookup(Vol().slots, FatNames.FatName(filename), 0).value].size
    {
      hide VolumeOf, Mirrored, FatNames.FatName, DirentAt, Regular;
      var want := FatNames.ToFatName(filename);
      for s := 0 to g.RootSectors()
        invariant Lookup(Vol().slots, want, s * SLOTS_PER_SECTOR) == Lookup(Vol().slots, want, 0)
      {
        SectorInRoot(disk[..], g, s);
        var sector := disk[g.RootStart() + s];
        for e := 0 to SLOTS_PER_SECTOR
          invariant Lookup(Vol().slots, want, s * SLOTS_PER_SECTOR + e) == Lookup(Vol().slots, want, 0)
        {
          var d := DirentAt(sector, e);
          SlotIs(disk[..], g, s, e);
          RegularIs(d);
          if FirstByte(d) == 0 { return false, 0, 0; }
          if FirstByte(d) == DELETED || d.attr / 8 % 2 == 1 || d.attr / 16 % 2 == 1 { continue; }
          if d.name == want { return true, d.first, d.size; }
        }
      }
      return false, 0, 0;
    }

    /** find_dirent_slot: the file's slot, or else the first vacant one; none when the directory is full. */
    method FindDirentSlot(filename: seq<Byte>) returns (ok: bool, slot: nat, existed: bool, first: nat)
      requires Valid()
      ensures existed <==> Lookup(Vol().slots, FatNames.FatName(filename), 0).Some?
      ensures ok <==> existed || FirstVacant(Vol().slots, 0).Some?
      ensures existed ==> Some(slot) == Lookup(Vol().slots, FatNames.FatName(filename), 0)
      ensures existed ==> slot < |Vol().slots| && first == Vol().slots[slot].first
      ensures ok && !existed ==> Some(slot) == FirstVacant(Vol().slots, 0)
    {
      hide VolumeOf, Mirrored, FatNames.FatName, DirentAt, Regular;
      var want := FatNames.ToFatName(filename);
      var free: Option<nat> := None;
      ghost var slots := Vol().slots;
      for s := 0 to g.RootSectors()
        invariant Lookup(slots, want, s * SLOTS_PER_SECTOR) == Lookup(slots, want, 0)
        invariant if free.Some? then free == FirstVacant(slots, 0)
          else FirstVacant(slots, s * SLOTS_PER_SECTOR) == FirstVacant(slots, 0)
      {
        SectorInRoot(disk[..], g, s);
        var sector := disk[g.RootStart() + s];
        for e := 0 to SLOTS_PER_SECTOR
          invariant Lookup(slots, want, s * SLOTS_PER_SECTOR + e) == Lookup(slots, want, 0)
          invariant if free.Some? then free == FirstVacant(slots, 0)
            else FirstVacant(slots, s * SLOTS_PER_SECTOR + e) == FirstVacant(slots, 0)
        {
          var d := DirentAt(sector, e);
          SlotIs(disk[..], g, s, e);
          RegularIs(d);
          if FirstByte(d) == 0 || FirstByte(d) == DELETED {
            if free.None? { free := Some(s * SLOTS_PER_SECTOR + e); }
            if FirstByte(d) == 0 { return true, free.value, false, 0; }
            continue;
          }
          if d.attr / 8 % 2 == 1 || d.attr / 16 % 2 == 1 { continue; }
          if d.name == want { return true, s * SLOTS_PER_SECTOR + e, true, d.first; }
        }
      }
      if free.None? { return false, 0, false, 0; }
      return true, free.value, false, 0;
    }

    /** The buffer of one cluster read, as in fat16_read_file. */
    method ReadCluster(c: nat) returns (buffer: seq<Byte>)
      requires Valid() && 2 <= c < g.Clusters()
      ensures buffer == Vol().clusters[c] && |buffer| == g.ClusterBytes()
    {
      ClusterLength(disk[..], g, c);
      assert disk[..][g.DataLba(c)..g.DataLba(c) + g.clusterSectors] == disk[g.DataLba(c)..g.DataLba(c) + g.clusterSectors];
      buffer := ReadSectors(g.DataLba(c), g.clusterSectors);
    }

    method WriteCluster(c: nat, buffer: seq<Byte>)
      requires Valid() && 2 <= c < g.Clusters() && |buffer| == g.ClusterBytes()
      modifies disk
      ensures Valid() && Vol() == old(Vol()).(clusters := old(Vol()).clusters[c := buffer])
    {
      ghost var disk0, g0 := disk[..], g;
      DataInside(g, c);
      hide DiskFits, Mirrored, VolumeOf, Flat, Geometry.Consistent, Geometry.Clusters, Geometry.DataStart, Geometry.DataLba;
      WriteSectors(g.DataLba(c), g.clusterSectors, buffer);
      ClusterPut(disk0, g0, c, disk[..], buffer);
    }

    /** The directory sector holding slot i is replaced by one that differs from it in that slot only. */
    method WriteSlotSector(i: nat, sector: seq<Byte>)
      requires Valid() && i < g.Slots() && |sector| == SECTOR
      requires g.RootLba(i / SLOTS_PER_SECTOR) < disk.Length
      requires forall k: nat :: k < SLOTS_PER_SECTOR && k != i % SLOTS_PER_SECTOR ==>
        DirentAt(sector, k) == DirentAt(disk[g.RootLba(i / SLOTS_PER_SECTOR)], k)
      modifies disk
      ensures Valid() && Vol() == old(Vol()).(slots := old(Vol()).slots[i := DirentAt(sector, i % SLOTS_PER_SECTOR)])
    {
      hide Mirrored, VolumeOf, DirentAt;
      SlotWrittenVolume(disk[..], g, i, sector);
      disk[g.RootLba(i / SLOTS_PER_SECTOR)] := sector;
      assert disk[..] == old(disk[..])[g.RootLba(i / SLOTS_PER_SECTOR) := sector];
    }
  }

  lemma ClusterPut(disk: seq<seq<Byte>>, g: Geometry, c: nat, disk': seq<seq<Byte>>, buffer: seq<Byte>)
    requires DiskFits(disk, g) && Mirrored(disk, g) && 2 <= c < g.Clusters()
    requires |disk'| == |disk| && g.DataLba(c) + g.clusterSectors <= |disk|
    requires Flat(disk'[g.DataLba(c)..g.DataLba(c) + g.clusterSectors]) == buffer
    requires forall i: nat :: i < |disk| && !(g.DataLba(c) <= i < g.DataLba(c) + g.clusterSectors) ==> disk'[i] == disk[i]
    requires forall i: nat :: g.DataLba(c) <= i < g.DataLba(c) + g.clusterSectors ==> |disk'[i]| == SECTOR
    ensures DiskFits(disk', g) && Mirrored(disk', g)
    ensures VolumeOf(disk', g) == VolumeOf(disk, g).(clusters := VolumeOf(disk, g).clusters[c := buffer])
  {
    hide Mirrored, VolumeOf, Geometry.Clusters, Geometry.DataStart;
    forall i: nat | i < |disk'| ensures |disk'[i]| == SECTOR { assert disk[i] in disk; }
    ClusterWrittenVolume(disk, g, c, disk');
  }

  lemma SectorInRoot(disk: seq<seq<Byte>>, g: Geometry, s: nat)
    requires DiskFits(disk, g) && s < g.RootSectors()
    ensures g.RootStart() + s < |disk|
  {
  }

  /** Entry e of the directory's sector s is slot 16 s + e of the volume. */
  lemma SlotIs(disk: seq<seq<Byte>>, g: Geometry, s: nat, e: nat)
    requires DiskFits(disk, g) && s < g.RootSectors() && e < SLOTS_PER_SECTOR
    ensures g.RootStart() + s < |disk| && s * SLOTS_PER_SECTOR + e < |VolumeOf(disk, g).slots|
    ensures VolumeOf(disk, g).slots[s * SLOTS_PER_SECTOR + e] == DirentAt(disk[g.RootStart() + s], e)
  {
    SectorInRoot(disk, g, s);
    var i := s * SLOTS_PER_SECTOR + e;
    assert i / SLOTS_PER_SECTOR == s && i % SLOTS_PER_SECTOR == e;
    assert VolumeOf(disk, g).slots[i] == SlotAt(disk, g, i);
  }

  lemma RegularIs(d: Dirent)
    ensures Regular(d) <==> FirstByte(d) != 0 && FirstByte(d) != DELETED && d.attr / 8 % 2 == 0 && d.attr / 16 % 2 == 0
  {
  }

  lemma {:induction false} LookupInside(slots: seq<Dirent>, name: seq<Byte>, i: nat)
    ensures Lookup(slots, name, i).Some? ==> i <= Lookup(slots, name, i).value < |slots|
    ensures Lookup(slots, name, i).Some? ==>
      Regular(slots[Lookup(slots, name, i).value]) && slots[Lookup(slots, name, i).value].name == name
    decreases |slots| - i
  {
    if i < |slots| && FirstByte(slots[i]) != 0 { LookupInside(slots, name, i + 1); }
  }

  /** The byte offset of entry c splits into a sector and an index. */
  lemma EntryPlace(c: nat)
    ensures c * 2 / SECTOR == c / ENTRIES_PER_SECTOR && c * 2 % SECTOR == c % ENTRIES_PER_SECTOR * 2
  {
  }

  lemma WrittenShape(disk: seq<seq<Byte>>, g: Geometry, c: nat, v: nat, copies: nat, disk': seq<seq<Byte>>, lba: nat)
    requires DiskFits(disk, g) && EntryWritten(disk, g, c, v, copies, disk') && lba < |disk|
    ensures |disk'| == |disk| && |disk'[lba]| == SECTOR
  {
    assert disk[lba] in disk;
  }

  lemma NothingWritten(disk: seq<seq<Byte>>, g: Geometry, c: nat, v: nat)
    ensures EntryWritten(disk, g, c, v, 0, disk)
  {
  }

  /** One more copy of the table written. */
  lemma EntryWrittenStep(disk: seq<seq<Byte>>, g: Geometry, c: nat, v: nat, copy: nat, mid: seq<seq<Byte>>, after: seq<seq<Byte>>)
    requires DiskFits(disk, g) && c < g.fatSectors * ENTRIES_PER_SECTOR && copy < g.fats
    requires EntryWritten(disk, g, c, v, copy, mid) && g.FatLba(copy, c / ENTRIES_PER_SECTOR) < |disk|
    requires var lba := g.FatLba(copy, c / ENTRIES_PER_SECTOR); after == mid[lba := EntryPut(mid[lba], c, v)]
    ensures EntryWritten(disk, g, c, v, copy + 1, after)
  {
    var at := c / ENTRIES_PER_SECTOR;
    var lba := g.FatLba(copy, at);
    FatInside(g, copy, at);
    forall k: nat, s: nat | k < g.fats && s < g.fatSectors
      ensures SectorAt(after, g.FatLba(k, s)) ==
        if k < copy + 1 && s == at then EntryPut(SectorAt(disk, g.FatLba(k, s)), c, v) else SectorAt(disk, g.FatLba(k, s))
    {
      FatInside(g, k, s);
      if k < copy { FatApart(g, k, s, copy, at); } else if k > copy { FatApart(g, copy, at, k, s); }
    }
  }
}
