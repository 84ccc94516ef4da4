/** The file operations of kernel/fat16.c as operations on a map from 8.3 names to byte strings. */
module FatSystem {
  import opened Options
  import opened Bytes
  import opened FatLayout
  import opened Fat16
  import opened FatFiles
  import opened FatStore
  import FatNames
  import FatRead
  import FatWrite

  // ---------------------------------------------------------------- directory slots

  const ARCHIVE := 0x20

  /** The 32 bytes of a slot as fat16_write_file fills them in. */
  function SlotBytes(name: seq<Byte>, first: nat, size: nat): (r: seq<Byte>)
    requires |name| == 11
    ensures |r| == SLOT_BYTES
  {
    name + [ARCHIVE] + seq(14, _ => 0)
    + [first % 0x100, first / 0x100 % 0x100]
    + [size % 0x100, size / 0x100 % 0x100, size / 0x1_0000 % 0x100, size / 0x100_0000 % 0x100]
  }

  lemma SlotBytesRead(name: seq<Byte>, first: nat, size: nat)
    requires |name| == 11 && first < 0x1_0000 && size < 0x1_0000_0000
    ensures DirentAt(SlotBytes(name, first, size), 0) == Dirent(name, ARCHIVE, first, size)
  {
    var b := SlotBytes(name, first, size);
    assert b[0..11] == name;
    assert b[11] == ARCHIVE;
    assert b[26] == first % 0x100 && b[27] == first / 0x100 % 0x100;
    assert b[28] == size % 0x100 && b[29] == size / 0x100 % 0x100 && b[30] == size / 0x1_0000 % 0x100 && b[31] == size / 0x100_0000 % 0x100;
    FourBytes(size);
  }

  lemma FourBytes(n: nat)
    requires n < 0x1_0000_0000
    ensures n % 0x100 + 0x100 * (n / 0x100 % 0x100) + 0x1_0000 * (n / 0x1_0000 % 0x100 + 0x100 * (n / 0x100_0000 % 0x100)) == n
  {
    assert n / 0x1_0000 == n / 0x100 / 0x100;
    assert n / 0x100_0000 == n / 0x1_0000 / 0x100;
  }

  /** A sector with the bytes of one slot replaced. */
  function SlotPut(sector: seq<Byte>, e: nat, bytes: seq<Byte>): (r: seq<Byte>)
    requires |sector| == SECTOR && e < SLOTS_PER_SECTOR && |bytes| == SLOT_BYTES
    ensures |r| == SECTOR
  {
    sector[..e * SLOT_BYTES] + bytes + sector[(e + 1) * SLOT_BYTES..]
  }

  lemma SlotPutRead(sector: seq<Byte>, e: nat, bytes: seq<Byte>, k: nat)
    requires |sector| == SECTOR && e < SLOTS_PER_SECTOR && |bytes| == SLOT_BYTES && k < SLOTS_PER_SECTOR
    ensures DirentAt(SlotPut(sector, e, bytes), k) == if k == e then DirentAt(bytes, 0) else DirentAt(sector, k)
  {
    var r := SlotPut(sector, e, bytes);
    if k == e {
      assert r[e * SLOT_BYTES..e * SLOT_BYTES + 11] == bytes[0..11];
    } else {
      assert r[k * SLOT_BYTES..k * SLOT_BYTES + 11] == sector[k * SLOT_BYTES..k * SLOT_BYTES + 11];
    }
  }

  lemma NameByteRead(sector: seq<Byte>, e: nat, k: nat)
    requires |sector| == SECTOR && e < SLOTS_PER_SECTOR && k < SLOTS_PER_SECTOR
    ensures |DirentAt(sector, k).name| == 11
    ensures var d := DirentAt(sector, k);
      DirentAt(sector[e * SLOT_BYTES := DELETED], k) == if k == e then d.(name := d.name[0 := DELETED]) else d
  {
    var r := sector[e * SLOT_BYTES := DELETED];
    var d := DirentAt(sector, k);
    assert r[k * SLOT_BYTES..k * SLOT_BYTES + 11] == if k == e then d.name[0 := DELETED] else d.name;
  }

  // ---------------------------------------------------------------- the directory as slots are filled and vacated

  /** A slot other than t keeps its file. */
  lemma OtherFile(v: Volume, k: nat, ch: Chains, own: map<nat, Place>, hole: Option<nat>, v': Volume, ch': Chains, i: nat)
    requires Kept(v, k, ch, own, hole) && FatWrite.SameUsed(v, v') && i < |ch| <= |ch'| && ch'[i] == ch[i]
    requires |v'.slots| == |v.slots| && v'.slots[i] == v.slots[i]
    ensures FileAt(v', ch', i) == FileAt(v, ch, i)
  {
    ChainFacts(v, k, ch, own, i, hole);
    FatWrite.ChainUsed(v, k, ch, own, i, hole);
    hide Kept;
    JoinedSame(v.clusters, v'.clusters, ch[i]);
  }

  lemma {:induction false} FirstVacantIs(slots: seq<Dirent>, i: nat)
    ensures FirstVacant(slots, i).Some? ==> i <= FirstVacant(slots, i).value < |slots| && Vacant(slots[FirstVacant(slots, i).value])
    ensures FirstVacant(slots, i).Some? ==> forall j :: i <= j < FirstVacant(slots, i).value ==> !Vacant(slots[j])
    decreases |slots| - i
  {
    if i < |slots| && !Vacant(slots[i]) { FirstVacantIs(slots, i + 1); }
  }

  /** Filling the slot that the search found keeps names unique and the end of the directory unused. */
  lemma DirectoryFilled(slots: seq<Dirent>, t: nat, d: Dirent, existed: bool)
    requires DirectoryKept(slots) && Regular(d) && existed == Lookup(slots, d.name, 0).Some?
    requires Some(t) == if existed then Lookup(slots, d.name, 0) else FirstVacant(slots, 0)
    ensures t < |slots| && DirectoryKept(slots[t := d])
  {
    LookupInside(slots, d.name, 0);
    FirstVacantIs(slots, 0);
    forall i | 0 <= i < |slots| && i != t && Regular(slots[i])
      ensures slots[i].name != d.name
    {
      LookupFinds(slots, i, 0);
    }
  }

  lemma DirectoryVacated(slots: seq<Dirent>, t: nat, d: Dirent)
    requires DirectoryKept(slots) && t < |slots| && Regular(slots[t]) && FirstByte(d) == DELETED
    ensures DirectoryKept(slots[t := d])
  {
  }

  function VacantCount(slots: seq<Dirent>): nat {
    if slots == [] then 0 else VacantCount(slots[..|slots| - 1]) + if Vacant(slots[|slots| - 1]) then 1 else 0
  }

  lemma {:induction false} VacantCountSet(slots: seq<Dirent>, t: nat, d: Dirent)
    requires t < |slots|
    ensures VacantCount(slots[t := d]) + (if Vacant(slots[t]) then 1 else 0) == VacantCount(slots) + if Vacant(d) then 1 else 0
  {
    var last := |slots| - 1;
    if t < last {
      VacantCountSet(slots[..last], t, d);
      assert slots[t := d][..last] == slots[..last][t := d];
    } else {
      assert slots[t := d][..last] == slots[..last];
    }
  }

  lemma {:induction false} VacantCountNone(slots: seq<Dirent>)
    ensures VacantCount(slots) > 0 <==> exists i :: 0 <= i < |slots| && Vacant(slots[i])
  {
    if slots != [] {
      VacantCountNone(slots[..|slots| - 1]);
      assert forall i :: 0 <= i < |slots| - 1 ==> slots[..|slots| - 1][i] == slots[i];
    }
  }

  /** The search for a vacant slot succeeds when there is one. */
  lemma {:induction false} VacantFound(slots: seq<Dirent>, i: nat)
    ensures FirstVacant(slots, i).Some? <==> exists j :: i <= j < |slots| && Vacant(slots[j])
    decreases |slots| - i
  {
    if i < |slots| && !Vacant(slots[i]) { VacantFound(slots, i + 1); }
  }

  lemma AsciiVisible(filename: seq<Byte>)
    requires Ascii(filename)
    ensures var d := Dirent(FatNames.FatName(filename), ARCHIVE, 0, 0); !Vacant(d) && |d.name| == 11
  {
    var base := FatNames.Before(filename, FatNames.DOT);
    if base != [] { assert filename[0] == base[0] && filename[0] in filename; }
  }

  lemma SlotSector(fs: Driver, i: nat)
    requires fs.Valid() && i < |fs.Vol().slots|
    ensures fs.g.RootLba(i / SLOTS_PER_SECTOR) < fs.disk.Length && |fs.disk[fs.g.RootLba(i / SLOTS_PER_SECTOR)]| == SECTOR
    ensures fs.Vol().slots[i] == DirentAt(fs.disk[fs.g.RootLba(i / SLOTS_PER_SECTOR)], i % SLOTS_PER_SECTOR)
  {
    SlotIs(fs.disk[..], fs.g, i / SLOTS_PER_SECTOR, i % SLOTS_PER_SECTOR);
    assert fs.disk[..][fs.g.RootLba(i / SLOTS_PER_SECTOR)] in fs.disk[..];
  }

  method FillSlot(fs: Driver, slot: nat, name: seq<Byte>, first: nat, size: nat)
    requires fs.Valid() && slot < |fs.Vol().slots| && |name| == 11 && first < 0x1_0000 && size < 0x1_0000_0000
    modifies fs.disk
    ensures fs.Valid() && fs.Vol() == old(fs.Vol()).(slots := old(fs.Vol()).slots[slot := Dirent(name, 0x20, first, size)])
  {
    hide VolumeOf, Mirrored, DirentAt, SlotBytes, SlotPut;
    SlotSector(fs, slot);
    var lba, e := fs.g.RootLba(slot / SLOTS_PER_SECTOR), slot % SLOTS_PER_SECTOR;
    var sector, bytes := fs.disk[lba], SlotBytes(name, first, size);
    SlotBytesRead(name, first, size);
    forall k: nat | k < SLOTS_PER_SECTOR
      ensures DirentAt(SlotPut(sector, e, bytes), k) == if k == e then DirentAt(bytes, 0) else DirentAt(sector, k)
    {
      SlotPutRead(sector, e, bytes, k);
    }
    fs.WriteSlotSector(slot, SlotPut(sector, e, bytes));
  }

  method VacateSlot(fs: Driver, slot: nat)
    requires fs.Valid() && slot < |fs.Vol().slots| && |fs.Vol().slots[slot].name| == 11
    modifies fs.disk
    ensures fs.Valid()
    ensures var d := old(fs.Vol()).slots[slot];
      fs.Vol() == old(fs.Vol()).(slots := old(fs.Vol()).slots[slot := d.(name := d.name[0 := 0xE5])])
  {
    hide VolumeOf, Mirrored, DirentAt;
    SlotSector(fs, slot);
    var lba, e := fs.g.RootLba(slot / SLOTS_PER_SECTOR), slot % SLOTS_PER_SECTOR;
    var sector := fs.disk[lba];
    forall k: nat | k < SLOTS_PER_SECTOR
      ensures |DirentAt(sector, k).name| == 11
      ensures var d := DirentAt(sector, k);
        DirentAt(sector[e * SLOT_BYTES := DELETED], k) == if k == e then d.(name := d.name[0 := DELETED]) else d
    {
      NameByteRead(sector, e, k);
    }
    fs.WriteSlotSector(slot, sector[e * SLOT_BYTES := DELETED]);
  }

  // ---------------------------------------------------------------- what a write does

  ghost predicate SlotFor(slots: seq<Dirent>, name: Name, t: nat, existed: bool) {
    && existed == Lookup(slots, name, 0).Some?
    && Some(t) == if existed then Lookup(slots, name, 0) else FirstVacant(slots, 0)
  }

  /** The chain of the slot chosen for a name is as long as the file of that name needs. */
  lemma OldChain(v: Volume, k: nat, ch: Chains, own: map<nat, Place>, name: Name, t: nat, existed: bool)
    requires Kept(v, k, ch, own, None) && SlotFor(v.slots, name, t, existed)
    ensures k > 0 && t < |ch| && |ch[t]| == NeededFor(Files(v, ch), name, k)
    ensures existed <==> name in Files(v, ch)
    ensures if existed then Regular(v.slots[t]) && v.slots[t].name == name else Vacant(v.slots[t])
  {
    FilesOnly(v, ch, name);
    LookupInside(v.slots, name, 0);
    FirstVacantIs(v.slots, 0);
    ChainFacts(v, k, ch, own, t, None);
    assert SlotKept(v.slots[t], ch[t], k);
    hide Kept, Files, Disjoint, Linked;
    if existed { JoinedLength(v.clusters, ch[t], v.slots[t].size, k); }
  }

  function OldFreed(v: Volume, chain: seq<nat>): Volume { v.(fat := Cleared(v.fat, chain)) }

  lemma OtherFiles(v: Volume, k: nat, ch: Chains, own: map<nat, Place>, t: nat, v': Volume, ch': Chains)
    requires Kept(v, k, ch, own, None) && t < |ch| == |ch'| && ch' == ch[t := ch'[t]]
    requires FatWrite.SameUsed(OldFreed(v, ch[t]), v')
    requires |v'.slots| == |v.slots| && v'.slots == v.slots[t := v'.slots[t]]
    ensures forall i :: 0 <= i < |ch| && i != t ==> FileAt(v', ch', i) == FileAt(v, ch, i)
  {
    KeptCleared(v, k, ch, own, t, None);
    var v1, ch1 := OldFreed(v, ch[t]), ch[t := []];
    forall i | 0 <= i < |ch| && i != t
      ensures FileAt(v', ch', i) == FileAt(v, ch, i)
    {
      assert FileAt(v1, ch1, i) == FileAt(v, ch, i);
      OtherFile(v1, k, ch1, Without(own, t), Some(t), v', ch', i);
    }
  }

  /** The slot filled in: the volume is kept, and the slot's file is the data. */
  lemma WriteKeeps(v: Volume, k: nat, ch: Chains, own: map<nat, Place>, t: nat, existed: bool, v2: Volume, ch2: Chains, own2: map<nat, Place>,
                   d: Dirent, data: seq<Byte>)
    requires Kept(v, k, ch, own, None) && SlotFor(v.slots, d.name, t, existed) && t < |ch| && k > 0
    requires FatWrite.ChainWritten(OldFreed(v, ch[t]), v2, k, ch[t := []], ch2, own2, t, data, d.first)
    requires |d.name| == 11 && Regular(d) && d.size == |data|
    ensures t < |v2.slots| == |v.slots| == |ch2| && DirectoryKept(v.slots[t := d])
    ensures var v3 := v2.(slots := v2.slots[t := d]); Kept(v3, k, ch2, own2, None) && FileAt(v3, ch2, t) == data
  {
    DirectoryFilled(v.slots, t, d, existed);
    KeptFinished(v2, k, ch2, own2, t, d);
  }

  /** A write that finds its clusters changes the file it names and no other. */
  lemma WriteDone(v: Volume, k: nat, ch: Chains, own: map<nat, Place>, t: nat, existed: bool, v2: Volume, ch2: Chains, own2: map<nat, Place>,
                  d: Dirent, data: seq<Byte>)
    requires Kept(v, k, ch, own, None) && SlotFor(v.slots, d.name, t, existed) && t < |ch| && k > 0
    requires FatWrite.ChainWritten(OldFreed(v, ch[t]), v2, k, ch[t := []], ch2, own2, t, data, d.first)
    requires |d.name| == 11 && Regular(d) && d.size == |data|
    ensures t < |v2.slots|
    ensures var v3 := v2.(slots := v2.slots[t := d]);
      && Kept(v3, k, ch2, own2, None)
      && Files(v3, ch2) == Files(v, ch)[d.name := data]
      && |FreeClusters(v3)| == |FreeClusters(v)| + |ch[t]| - Needed(|data|, k)
  {
    hide Kept, Files, FileAt, DirectoryKept, Joined, FreeClusters, Needed, Regular, Lookup, FirstVacant;
    WriteKeeps(v, k, ch, own, t, existed, v2, ch2, own2, d, data);
    FatWrite.FreedCount(v, k, ch, own, t, None);
    SameFree(v2, v2.(slots := v2.slots[t := d]));
    hide SlotFor;
    WriteFiles(v, k, ch, own, t, existed, v2, ch2, d);
  }

  lemma WriteFiles(v: Volume, k: nat, ch: Chains, own: map<nat, Place>, t: nat, existed: bool, v2: Volume, ch2: Chains, d: Dirent)
    requires Kept(v, k, ch, own, None) && SlotFor(v.slots, d.name, t, existed) && t < |ch| == |ch2| && ch2 == ch[t := ch2[t]]
    requires FatWrite.SameUsed(OldFreed(v, ch[t]), v2) && v2.slots == v.slots && Regular(d)
    requires |ch| == |v.slots| ==> DirectoryKept(v.slots[t := d])
    ensures |ch| == |v.slots|
    ensures var v3 := v2.(slots := v2.slots[t := d]); Files(v3, ch2) == Files(v, ch)[d.name := FileAt(v3, ch2, t)]
  {
    var v3 := v2.(slots := v2.slots[t := d]);
    OldChain(v, k, ch, own, d.name, t, existed);
    KeptSlots(v, k, ch, own);
    hide Kept, Files, FileAt, DirectoryKept, SlotFor, Cleared, Regular;
    OtherFiles(v, k, ch, own, t, v3, ch2);
    RegularOrVacant(v.slots[t]);
    FilesWritten(v, ch, v3, ch2, t, d);
  }

  lemma RegularOrVacant(d: Dirent)
    ensures !(Vacant(d) && Regular(d))
  {
  }

  lemma SameFree(v: Volume, v': Volume)
    requires v'.fat == v.fat && |v'.clusters| == |v.clusters|
    ensures FreeClusters(v') == FreeClusters(v)
  {
  }

  /** A write of a fresh name that runs out of clusters changes no file. */
  lemma FreshWriteFailed(v: Volume, k: nat, ch: Chains, own: map<nat, Place>, t: nat, v2: Volume, own2: map<nat, Place>)
    requires Kept(v, k, ch, own, None) && t < |ch| && ch[t] == []
    requires Kept(v2, k, ch, own2, Some(t)) && v2.fat == Cleared(v.fat, ch[t]) && v2.slots == v.slots
    requires FatWrite.SameUsed(OldFreed(v, ch[t]), v2)
    ensures v2.fat == v.fat && Kept(v2, k, ch, own2, None) && Files(v2, ch) == Files(v, ch)
    ensures FreeClusters(v2) == FreeClusters(v)
  {
    assert Cleared(v.fat, ch[t]) == v.fat;
    assert OldFreed(v, ch[t]) == v;
    HoleFilled(v, k, ch, own, t, v2, own2);
    hide Kept, Cleared;
    forall i | 0 <= i < |ch|
      ensures FileAt(v2, ch, i) == FileAt(v, ch, i)
    {
      OtherFile(v, k, ch, own, None, v2, ch, i);
    }
    SameFiles(v, v2, ch);
    assert FreeClusters(v2) == FreeClusters(v);
  }

  lemma HoleFilled(v: Volume, k: nat, ch: Chains, own: map<nat, Place>, t: nat, v2: Volume, own2: map<nat, Place>)
    requires Kept(v, k, ch, own, None) && t < |ch| && Kept(v2, k, ch, own2, Some(t)) && v2.slots == v.slots
    ensures Kept(v2, k, ch, own2, None) && |ch| == |v.slots| && DirectoryKept(v.slots)
  {
    assert SlotKept(v.slots[t], ch[t], k);
    hide SlotKept, Disjoint, Linked, DirectoryKept;
  }

  lemma SameFiles(v: Volume, v2: Volume, ch: Chains)
    requires v2.slots == v.slots && |ch| == |v.slots|
    requires forall i :: 0 <= i < |ch| ==> FileAt(v2, ch, i) == FileAt(v, ch, i)
    ensures Files(v2, ch) == Files(v, ch)
  {
    hide FileAt;
  }

  /** An overwrite that runs out of clusters leaves a slot naming a free cluster: the volume is no longer
      one whose chains are apart, whatever chains are tried. */
  lemma OverwriteFailed(v: Volume, k: nat, ch: Chains, own: map<nat, Place>, t: nat, v2: Volume, anyCh: Chains, anyOwn: map<nat, Place>)
    requires Kept(v, k, ch, own, None) && t < |ch| && ch[t] != [] && Regular(v.slots[t])
    requires v2.fat == Cleared(v.fat, ch[t]) && v2.slots == v.slots && |v2.clusters| == |v.clusters|
    ensures !Kept(v2, k, anyCh, anyOwn, None)
  {
    var c := ch[t][0];
    ChainFacts(v, k, ch, own, t, None);
    assert SlotKept(v.slots[t], ch[t], k) && c in ch[t] && v2.fat[c] == FREE;
    hide Kept;
    if Kept(v2, k, anyCh, anyOwn, None) { FirstInUse(v2, k, anyCh, anyOwn, t); }
  }

  lemma FirstInUse(v: Volume, k: nat, ch: Chains, own: map<nat, Place>, t: nat)
    requires Kept(v, k, ch, own, None) && t < |v.slots| && Regular(v.slots[t]) && k > 0 && Needed(v.slots[t].size, k) > 0
    ensures v.slots[t].first < |v.fat| && v.fat[v.slots[t].first] != FREE
  {
    assert SlotKept(v.slots[t], ch[t], k);
    assert ch[t][0] == v.slots[t].first && own[ch[t][0]] == Place(t, 0);
  }

  /** A deletion removes the name and nothing else. */
  lemma DeleteDone(v: Volume, k: nat, ch: Chains, own: map<nat, Place>, t: nat)
    requires Kept(v, k, ch, own, None) && t < |ch| && Regular(v.slots[t])
    ensures t < |v.slots| && |v.slots[t].name| == 11
    ensures var d := v.slots[t];
      var v3 := OldFreed(v, ch[t]).(slots := v.slots[t := d.(name := d.name[0 := DELETED])]);
      && Kept(v3, k, ch[t := []], Without(own, t), None)
      && Files(v3, ch[t := []]) == Files(v, ch) - {d.name}
      && |FreeClusters(v3)| == |FreeClusters(v)| + |ch[t]|
  {
    assert SlotKept(v.slots[t], ch[t], k);
    var d := v.slots[t].(name := v.slots[t].name[0 := DELETED]);
    var v1 := OldFreed(v, ch[t]);
    var v3 := v1.(slots := v.slots[t := d]);
    KeptCleared(v, k, ch, own, t, None);
    DirectoryVacated(v.slots, t, d);
    KeptFinished(v1, k, ch[t := []], Without(own, t), t, d);
    FatWrite.FreedCount(v, k, ch, own, t, None);
    assert DirectoryKept(v.slots);
    assert Vacant(d) && |v.slots| == |ch|;
    hide Kept, Files, FileAt, DirectoryKept, Cleared, Regular, Vacant, SlotKept, Without;
    OtherFiles(v, k, ch, own, t, v3, ch[t := []]);
    FilesRemoved(v, ch, v3, ch[t := []], t, d);
    assert FreeClusters(v3) == FreeClusters(v1);
  }

  /** The chain of the slot's file freed, if there is one. */
  method FreeOld(fs: Driver, existed: bool, first: nat, ghost ch: Chains, ghost own: map<nat, Place>, ghost t: nat)
    requires fs.Valid() && Kept(fs.Vol(), fs.g.ClusterBytes(), ch, own, None) && t < |ch|
    requires if existed then !Vacant(fs.Vol().slots[t]) && first == fs.Vol().slots[t].first else Vacant(fs.Vol().slots[t])
    modifies fs.disk
    ensures fs.Valid() && fs.Vol() == OldFreed(old(fs.Vol()), ch[t])
  {
    hide VolumeOf, Mirrored, DiskFits, Vacant;
    ghost var v, k := fs.Vol(), fs.g.ClusterBytes();
    ChainFacts(v, k, ch, own, t, None);
    FatRead.LinksStayInside(v, k, ch, own, None);
    FatRead.DiskSizes(fs);
    assert SlotKept(v.slots[t], ch[t], k);
    hide Kept, Disjoint, Linked, Sizes;
    if ch[t] != [] { FreeFromClears(v.fat, ch[t]); assert ch[t][0] in ch[t]; } else { assert Cleared(v.fat, ch[t]) == v.fat; }
    if existed && first != 0 { fs.FatFreeChain(first); }
  }

  /** What fat16_write_file does once it has a slot. */
  ghost predicate Wrote(v: Volume, k: nat, ch: Chains, name: Name, t: nat, data: seq<Byte>, ok: bool, v': Volume, ch': Chains, own': map<nat, Place>)
    requires k > 0
  {
    var oldNeed := NeededFor(Files(v, ch), name, k);
    && (ok <==> Needed(|data|, k) <= |FreeClusters(v)| + oldNeed)
    && (ok ==> Kept(v', k, ch', own', None) && Files(v', ch') == Files(v, ch)[name := data])
    && (ok ==> |FreeClusters(v')| == |FreeClusters(v)| + oldNeed - Needed(|data|, k))
    && (ok ==> t < |v.slots| == |v'.slots| && v'.slots == v.slots[t := v'.slots[t]] && Regular(v'.slots[t]))
    && (!ok ==> v'.slots == v.slots)
    && (!ok && oldNeed == 0 ==> Kept(v', k, ch', own', None) && v'.fat == v.fat && Files(v', ch') == Files(v, ch))
    && (!ok && oldNeed == 0 ==> FreeClusters(v') == FreeClusters(v))
    && (!ok && oldNeed > 0 ==> forall anyCh, anyOwn :: !Kept(v', k, anyCh, anyOwn, None))
    && (!ok && oldNeed > 0 ==> Files(v', ch') - {name} == Files(v, ch) - {name})
  }

  method WriteInto(fs: Driver, filename: seq<Byte>, data: seq<Byte>, slot: nat, existed: bool, oldFirst: nat,
                   ghost ch: Chains, ghost own: map<nat, Place>)
      returns (ok: bool, ghost ch': Chains, ghost own': map<nat, Place>)
    requires fs.Valid() && fs.g.ClusterBytes() > 0 && Kept(fs.Vol(), fs.g.ClusterBytes(), ch, own, None)
    requires Ascii(filename) && |data| + fs.g.ClusterBytes() <= 0x1_0000_0000
    requires SlotFor(fs.Vol().slots, FatNames.FatName(filename), slot, existed)
    requires existed ==> slot < |fs.Vol().slots| && oldFirst == fs.Vol().slots[slot].first
    modifies fs.disk
    ensures fs.Valid() && Wrote(old(fs.Vol()), fs.g.ClusterBytes(), ch, FatNames.FatName(filename), slot, data, ok, fs.Vol(), ch', own')
  {
    hide VolumeOf, Mirrored, DiskFits, Kept, Files, FatNames.FatName, SlotFor, Geometry.Consistent, Geometry.ClusterBytes, Vacant;
    ghost var v, k, name, t := fs.Vol(), fs.g.ClusterBytes(), FatNames.FatName(filename), slot;
    OldChain(v, k, ch, own, name, t, existed);
    KeptSlots(v, k, ch, own);
    FreeOld(fs, existed, oldFirst, ch, own, t);
    KeptCleared(v, k, ch, own, t, None);
    FatWrite.FreedCount(v, k, ch, own, t, None);
    var first;
    ok, first, ch', own' := FatWrite.WriteChain(fs, data, ch[t := []], Without(own, t), t);
    ghost var v2 := fs.Vol();
    hide Cleared, FreeClusters, Without;
    if ok {
      var want := FatNames.ToFatName(filename);
      FirstFits(v2, k, ch', own', t, first);
      ArchiveRegular(filename, first, |data|);
      FillSlot(fs, slot, want, first, |data|);
      hide FatWrite.ChainWritten;
      WriteDone(v, k, ch, own, t, existed, v2, ch', own', Dirent(name, ARCHIVE, first, |data|), data);
    } else {
      WriteFailed(v, k, ch, own, t, name, v2, ch', own');
    }
  }

  lemma ArchiveRegular(filename: seq<Byte>, first: nat, size: nat)
    requires Ascii(filename)
    ensures var d := Dirent(FatNames.FatName(filename), ARCHIVE, first, size); Regular(d) && |d.name| == 11
  {
    AsciiVisible(filename);
  }

  lemma WriteFailed(v: Volume, k: nat, ch: Chains, own: map<nat, Place>, t: nat, name: Name, v2: Volume, ch2: Chains, own2: map<nat, Place>)
    requires Kept(v, k, ch, own, None) && t < |ch| && t < |v.slots| && (ch[t] != [] ==> Regular(v.slots[t]) && v.slots[t].name == name)
    requires Kept(v2, k, ch2, own2, Some(t)) && ch2 == ch[t := []] && v2.fat == Cleared(v.fat, ch[t]) && v2.slots == v.slots
    requires FatWrite.SameUsed(OldFreed(v, ch[t]), v2)
    ensures ch[t] == [] ==> v2.fat == v.fat && Kept(v2, k, ch2, own2, None) && Files(v2, ch2) == Files(v, ch) && FreeClusters(v2) == FreeClusters(v)
    ensures ch[t] != [] ==> forall anyCh, anyOwn :: !Kept(v2, k, anyCh, anyOwn, None)
    ensures ch[t] != [] ==> Files(v2, ch2) - {name} == Files(v, ch) - {name}
  {
    KeptSlots(v, k, ch, own);
    hide Kept, Files, FreeClusters, Cleared;
    if ch[t] == [] {
      assert ch2 == ch;
      FreshWriteFailed(v, k, ch, own, t, v2, own2);
    } else {
      forall anyCh, anyOwn ensures !Kept(v2, k, anyCh, anyOwn, None) {
        OverwriteFailed(v, k, ch, own, t, v2, anyCh, anyOwn);
      }
      OtherFiles(v, k, ch, own, t, v2, ch2);
      SameFilesBut(v, ch, v2, ch2, t);
    }
  }

  lemma SameFilesBut(v: Volume, ch: Chains, v2: Volume, ch2: Chains, t: nat)
    requires v2.slots == v.slots && |ch| == |ch2| == |v.slots| && t < |ch| && DirectoryKept(v.slots) && Regular(v.slots[t])
    requires forall i :: 0 <= i < |ch| && i != t ==> FileAt(v2, ch2, i) == FileAt(v, ch, i)
    ensures Files(v2, ch2) - {v.slots[t].name} == Files(v, ch) - {v.slots[t].name}
  {
    hide FileAt, DirectoryKept, Files, Regular, Lookup;
    forall n: Name | n != v.slots[t].name
      ensures n in Files(v2, ch2) <==> n in Files(v, ch)
      ensures n in Files(v, ch) ==> Files(v2, ch2)[n] == Files(v, ch)[n]
    {
      FilesOnly(v, ch, n);
      FilesOnly(v2, ch2, n);
      LookupInside(v.slots, n, 0);
    }
    assert Files(v2, ch2) - {v.slots[t].name} == Files(v, ch) - {v.slots[t].name};
  }

  // ---------------------------------------------------------------- the file system

  /** What a volume with these chains stands for. */
  ghost function StoreOf(v: Volume, ch: Chains): Store { Store(Files(v, ch), |FreeClusters(v)|, VacantCount(v.slots)) }

  /** The files under all names but one are the same. */
  ghost predicate SameBut(files: map<Name, seq<Byte>>, files': map<Name, seq<Byte>>, name: Name) {
    forall n: Name :: n != name ==> (n in files' <==> n in files) && (n in files ==> files'[n] == files[n])
  }

  /** The data is there under the name, and every other file is as it was. */
  ghost predicate Stored(files: map<Name, seq<Byte>>, name: Name, data: seq<Byte>, files': map<Name, seq<Byte>>) {
    name in files' && files'[name] == data && SameBut(files, files', name)
  }

  /** There is a slot for a file, its own or one that was never used or is deleted, and there are clusters for it, those of the
      file that it replaces included. */
  ghost predicate Room(v: Volume, files: map<Name, seq<Byte>>, name: Name, size: nat, k: nat)
    requires k > 0
  {
    && (name in files || exists d <- v.slots :: FirstByte(d) == 0 || FirstByte(d) == 0xE5)
    && (size + k - 1) / k <= |FreeClusters(v)| + if name in files then (|files[name]| + k - 1) / k else 0
  }

  lemma RoomIs(v: Volume, ch: Chains, name: Name, data: seq<Byte>, k: nat)
    requires k > 0 && (FirstVacant(v.slots, 0).Some? <==> VacantCount(v.slots) > 0)
    ensures (Room(v, Files(v, ch), name, |data|, k) <==> WriteFits(StoreOf(v, ch), name, data, k))
  {
    hide Files, FreeClusters, VacantCount, Needed;
    var files := Files(v, ch);
    RoundedUp(|data|, k);
    if name in files { RoundedUp(|files[name]|, k); }
    HasVacant(v.slots);
  }

  lemma HasVacant(slots: seq<Dirent>)
    ensures FirstVacant(slots, 0).Some? <==> exists d <- slots :: FirstByte(d) == 0 || FirstByte(d) == 0xE5
  {
    VacantFound(slots, 0);
    if d :| d in slots && (FirstByte(d) == 0 || FirstByte(d) == 0xE5) {
      var i :| 0 <= i < |slots| && slots[i] == d;
      assert Vacant(slots[i]);
    }
    if j :| 0 <= j < |slots| && Vacant(slots[j]) { assert slots[j] in slots; }
  }

  /** A disk whose boot sector can be mounted, and what lies on it. */
  ghost predicate Holds(disk: seq<seq<Byte>>, g: Geometry, ch: Chains, own: map<nat, Place>) {
    DiskFits(disk, g) && Mirrored(disk, g) && Kept(VolumeOf(disk, g), g.ClusterBytes(), ch, own, None)
  }

  class FileSystem {
    const fs: Driver
    ghost var ch: Chains
    ghost var own: map<nat, Place>

    ghost predicate Valid()
      reads this, fs, fs.disk
    {
      fs.Valid() && Kept(fs.Vol(), fs.g.ClusterBytes(), ch, own, None)
    }

    /** The files the volume holds. */
    ghost function Contents(): map<Name, seq<Byte>>
      reads this, fs, fs.disk
      requires fs.Valid()
    {
      Files(fs.Vol(), ch)
    }

    ghost function State(): Store
      reads this, fs, fs.disk
      requires fs.Valid()
    {
      StoreOf(fs.Vol(), ch)
    }

    constructor (fs: Driver, ghost ch: Chains, ghost own: map<nat, Place>)
      requires fs.Valid() && Kept(fs.Vol(), fs.g.ClusterBytes(), ch, own, None)
      ensures this.fs == fs && Valid() && State() == StoreOf(fs.Vol(), ch)
    {
      this.fs, this.ch, this.own := fs, ch, own;
    }

    /** fat16_find_file, then fat16_read_file into a buffer of any size. */
    method Read(filename: seq<Byte>, buffer: array<Byte>) returns (found: bool, size: nat)
      requires Valid() && fs.disk as object != buffer
      modifies buffer
      ensures found <==> FatNames.FatName(filename) in Contents()
      ensures found ==> size == |Contents()[FatNames.FatName(filename)]|
      ensures found ==> var count := FatRead.Min(size, buffer.Length);
        buffer[..count] == Contents()[FatNames.FatName(filename)][..count] && buffer[count..] == old(buffer[count..])
      ensures !found ==> buffer[..] == old(buffer[..])
    {
      hide VolumeOf, Mirrored, DiskFits, Files, FatNames.FatName, FileAt, Lookup;
      ghost var v, k, want := fs.Vol(), fs.g.ClusterBytes(), FatNames.FatName(filename);
      FilesOnly(v, ch, want);
      LookupInside(v.slots, want, 0);
      var first;
      found, first, size := fs.FindFile(filename);
      if found {
        ghost var t, was := Lookup(v.slots, want, 0).value, buffer[..];
        FatRead.FileEnds(v, k, ch, own, t);
        ghost var n, count;
        n, count := FatRead.ReadFile(fs, first, size, buffer);
        FatRead.WalkReadsFile(v, k, ch, own, t, n, count, buffer[..], was);
      }
    }

    /** fat16_write_file. A write that fails for lack of clusters changes nothing when no clusters were freed
        for it; otherwise it damages the volume, and the other files are still there. */
    method Write(filename: seq<Byte>, data: seq<Byte>) returns (ok: bool)
      requires Valid() && Ascii(filename) && |data| + fs.g.ClusterBytes() <= 0x1_0000_0000
      modifies this, fs.disk
      ensures fs.Valid() && fs.g.ClusterBytes() > 0
      ensures ok == WriteFits(old(State()), FatNames.FatName(filename), data, fs.g.ClusterBytes())
      ensures ok ==> Valid() && State() == AfterWrite(old(State()), FatNames.FatName(filename), data, fs.g.ClusterBytes())
      ensures ok ==> Stored(old(Contents()), FatNames.FatName(filename), data, Contents())
      ensures ok <==> Room(old(fs.Vol()), old(Contents()), FatNames.FatName(filename), |data|, fs.g.ClusterBytes())
      ensures !ok ==> fs.Vol().slots == old(fs.Vol()).slots
      ensures !ok && NeededFor(old(Contents()), FatNames.FatName(filename), fs.g.ClusterBytes()) == 0 ==>
        Valid() && fs.Vol().fat == old(fs.Vol()).fat && State() == old(State())
      ensures !ok && NeededFor(old(Contents()), FatNames.FatName(filename), fs.g.ClusterBytes()) > 0 ==>
        forall anyCh, anyOwn :: !Kept(fs.Vol(), fs.g.ClusterBytes(), anyCh, anyOwn, None)
      ensures !ok ==> Contents() - {FatNames.FatName(filename)} == old(Contents()) - {FatNames.FatName(filename)}
    {
      hide VolumeOf, Mirrored, DiskFits, Kept, Files, FatNames.FatName, Lookup, FirstVacant, Geometry.Consistent, Ascii, Needed;
      hide FreeClusters, VacantCount;
      ghost var v, k, name := fs.Vol(), fs.g.ClusterBytes(), FatNames.FatName(filename);
      FatRead.DiskSizes(fs);
      KeptSlots(v, k, ch, own);
      FilesOnly(v, ch, name);
      SlotFree(v.slots);
      RoomIs(v, ch, name, data, k);
      hide DirectoryKept, Room;
      var slot, existed, oldFirst;
      ok, slot, existed, oldFirst := fs.FindDirentSlot(filename);
      if !ok {
        NothingNeeded(Files(v, ch), name, k);
        return;
      }
      OldChain(v, k, ch, own, name, slot, existed);
      ok, ch, own := WriteInto(fs, filename, data, slot, existed, oldFirst, ch, own);
      if ok {
        RegularOrVacant(fs.Vol().slots[slot]);
        hide Vacant;
        VacantCountSet(v.slots, slot, fs.Vol().slots[slot]);
      }
    }

    /** fat16_delete_file. */
    method Delete(filename: seq<Byte>) returns (found: bool)
      requires Valid()
      modifies this, fs.disk
      ensures Valid() && fs.g.ClusterBytes() > 0
      ensures found <==> FatNames.FatName(filename) in old(Contents())
      ensures State() == AfterDelete(old(State()), FatNames.FatName(filename), fs.g.ClusterBytes())
      ensures FatNames.FatName(filename) !in Contents() && SameBut(old(Contents()), Contents(), FatNames.FatName(filename))
      ensures !found ==> fs.Vol() == old(fs.Vol())
    {
      hide VolumeOf, Mirrored, DiskFits, Kept, Files, FatNames.FatName, Lookup, FirstVacant, Geometry.Consistent, FreeClusters, VacantCount;
      ghost var v, k, name := fs.Vol(), fs.g.ClusterBytes(), FatNames.FatName(filename);
      FatRead.DiskSizes(fs);
      KeptSlots(v, k, ch, own);
      FilesOnly(v, ch, name);
      var ok, slot, existed, oldFirst := fs.FindDirentSlot(filename);
      found := ok && existed;
      if !found {
        assert Contents() - {name} == Contents();
        return;
      }
      OldChain(v, k, ch, own, name, slot, existed);
      FreeOld(fs, true, oldFirst, ch, own, slot);
      DeleteDone(v, k, ch, own, slot);
      VacateSlot(fs, slot);
      RegularOrVacant(v.slots[slot]);
      DeletedIsVacant(v.slots[slot]);
      hide Vacant;
      VacantCountSet(v.slots, slot, fs.Vol().slots[slot]);
      ch, own := ch[slot := []], Without(own, slot);
    }

    method Step(r: Request) returns (reply: Reply)
      requires Valid() && fs.g.ClusterBytes() > 0 && WellFormed(r, fs.g.ClusterBytes()) && !Damages(State(), r, fs.g.ClusterBytes())
      modifies this, fs.disk
      ensures fs.Valid() && Valid() && State() == After(old(State()), r, fs.g.ClusterBytes())
      ensures reply == ReplyTo(old(State()), r, fs.g.ClusterBytes())
    {
      hide VolumeOf, Mirrored, DiskFits, Kept, Files, FatNames.FatName, Geometry.Consistent, FreeClusters, VacantCount, Needed;
      match r
      case Write(filename, data) =>
        var ok := Write(filename, data);
        reply := Done(ok);
      case Delete(filename) =>
        var found := Delete(filename);
        reply := Done(found);
      case Read(filename, room) =>
        var buffer := new Byte[room](_ => 0);
        var found, size := Read(filename, buffer);
        reply := if found then Bytes(buffer[..FatRead.Min(size, room)]) else NotFound;
    }

    /** Any run of requests, none of which damages the volume, is answered from the store, and leaves the
        volume standing for the store it should. */
    method Run(rs: seq<Request>) returns (replies: seq<Reply>)
      requires Valid() && fs.g.ClusterBytes() > 0 && AllSafe(State(), rs, fs.g.ClusterBytes())
      modifies this, fs.disk
      ensures Valid() && State() == AfterAll(old(State()), rs, fs.g.ClusterBytes())
      ensures replies == Replies(old(State()), rs, fs.g.ClusterBytes()) && LastWrites(old(State()).files, rs, replies)
    {
      ghost var s, k := State(), fs.g.ClusterBytes();
      RepliesShow(s, rs, k);
      hide Valid, State, After, ReplyTo, Damages, WellFormed, Geometry.ClusterBytes, AllSafe, AfterAll, Replies;
      RunStarts(s, k);
      replies := [];
      for i := 0 to |rs|
        invariant Valid() && fs.Valid() && State() == AfterAll(s, rs[..i], k) && replies == Replies(s, rs[..i], k)
      {
        RunContinues(s, rs, i, k);
        var reply := Step(rs[i]);
        replies := replies + [reply];
      }
      assert rs[..|rs|] == rs;
    }
  }

  /** From the raw sectors on: the volume is mounted exactly if its sectors are of the usual size, and then any requests
      that do not damage it are answered from the files on the disk and leave the disk holding the files they should. */
  method MountAndRun(disk: array<seq<Byte>>, rs: seq<Request>, ghost ch: Chains, ghost own: map<nat, Place>)
      returns (mounted: bool, replies: seq<Reply>, ghost ch': Chains, ghost own': map<nat, Place>)
    requires disk.Length > 0 && |disk[0]| == SECTOR && Holds(disk[..], BootGeometry(disk[0]), ch, own)
    requires BootGeometry(disk[0]).ClusterBytes() > 0
    requires AllSafe(StoreOf(VolumeOf(disk[..], BootGeometry(disk[0])), ch), rs, BootGeometry(disk[0]).ClusterBytes())
    modifies disk
    ensures mounted <==> old(Le16(disk[0], 11)) == 512
    ensures mounted ==> Holds(disk[..], old(BootGeometry(disk[0])), ch', own')
    ensures var g := old(BootGeometry(disk[0])); var s := StoreOf(VolumeOf(old(disk[..]), g), ch);
      mounted ==> StoreOf(VolumeOf(disk[..], g), ch') == AfterAll(s, rs, g.ClusterBytes()) && replies == Replies(s, rs, g.ClusterBytes())
    ensures var s := StoreOf(VolumeOf(old(disk[..]), old(BootGeometry(disk[0]))), ch); mounted ==> LastWrites(s.files, rs, replies)
    ensures !mounted ==> disk[..] == old(disk[..])
  {
    hide VolumeOf, Mirrored, DiskFits, Kept, AllSafe, AfterAll, Replies, StoreOf, Geometry.ClusterBytes, BootGeometry, LastWrites;
    replies, ch', own' := [], ch, own;
    var fs := new Driver(disk);
    mounted := fs.Mount();
    if mounted {
      var system := new FileSystem(fs, ch, own);
      replies := system.Run(rs);
      ch', own' := system.ch, system.own;
    }
  }

  /** A volume with nothing on it stands for no files. */
  lemma EmptyVolume(v: Volume, k: nat)
    requires Sizes(v, k) && |v.clusters| >= 2 && forall c :: 2 <= c < |v.clusters| ==> v.fat[c] == FREE
    requires forall d <- v.slots :: |d.name| == 11 && FirstByte(d) == 0
    ensures var ch := seq(|v.slots|, _ => []);
      Kept(v, k, ch, map[], None) && Files(v, ch) == map[] && |FreeClusters(v)| == |v.clusters| - 2
  {
    var ch: Chains := seq(|v.slots|, _ => []);
    forall i | 0 <= i < |v.slots| ensures Vacant(v.slots[i]) && |v.slots[i].name| == 11 && FirstByte(v.slots[i]) == 0 {
      assert v.slots[i] in v.slots;
    }
    assert Kept(v, k, ch, map[], None);
    assert Names(v.slots) == {};
    ClustersAddUp(v, k, ch, map[]);
  }

  lemma DeletedIsVacant(d: Dirent)
    requires |d.name| == 11
    ensures Vacant(d.(name := d.name[0 := DELETED]))
  {
  }

  lemma SlotFree(slots: seq<Dirent>)
    ensures FirstVacant(slots, 0).Some? <==> VacantCount(slots) > 0
  {
    VacantFound(slots, 0);
    VacantCountNone(slots);
  }

  lemma NothingNeeded(contents: map<Name, seq<Byte>>, name: Name, k: nat)
    requires k > 0 && name !in contents
    ensures NeededFor(contents, name, k) == 0
  {
  }

  lemma KeptSlots(v: Volume, k: nat, ch: Chains, own: map<nat, Place>)
    requires Kept(v, k, ch, own, None)
    ensures |ch| == |v.slots| && DirectoryKept(v.slots)
  {
  }

  lemma FirstFits(v: Volume, k: nat, ch: Chains, own: map<nat, Place>, t: nat, first: nat)
    requires Kept(v, k, ch, own, Some(t)) && t < |ch| && first == (if ch[t] == [] then 0 else ch[t][0])
    ensures first < 0x1_0000 && |v.slots| == |ch|
  {
    if ch[t] != [] { assert own[ch[t][0]] == Place(t, 0); }
  }
}
