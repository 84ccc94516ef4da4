/** Building a file's chain and filling in its directory slot: kernel/fat16.c:353-424. */
module FatWrite {
  import opened Options
  import opened Bytes
  import opened FatLayout
  import opened Fat16
  import opened FatFiles
  import FatRead

  // ---------------------------------------------------------------- counting free clusters

  function Members(chain: seq<nat>): set<nat> { set c | c in chain }

  lemma {:induction false} ChainSize(chain: seq<nat>)
    requires NoRepeats(chain)
    ensures |Members(chain)| == |chain|
  {
    if chain != [] {
      var rest := chain[..|chain| - 1];
      ChainSize(rest);
      assert Members(chain) == Members(rest) + {chain[|chain| - 1]};
    }
  }

  /** Freeing a chain adds its clusters to the free ones. */
  lemma FreedCount(v: Volume, k: nat, ch: Chains, own: map<nat, Place>, t: nat, hole: Option<nat>)
    requires Kept(v, k, ch, own, hole) && t < |ch|
    ensures |FreeClusters(v.(fat := Cleared(v.fat, ch[t])))| == |FreeClusters(v)| + |ch[t]|
  {
    ChainFacts(v, k, ch, own, t, hole);
    ChainUsed(v, k, ch, own, t, hole);
    ChainSize(ch[t]);
    var freed := Members(ch[t]);
    assert FreeClusters(v.(fat := Cleared(v.fat, ch[t]))) == FreeClusters(v) + freed;
    assert FreeClusters(v) !! freed;
  }

  lemma ChainUsed(v: Volume, k: nat, ch: Chains, own: map<nat, Place>, t: nat, hole: Option<nat>)
    requires Kept(v, k, ch, own, hole) && t < |ch|
    ensures forall c <- ch[t] :: c in own && own[c].slot == t && c < |v.fat| && v.fat[c] != FREE
  {
  }

  /** Taking a free cluster leaves one fewer. */
  lemma GrownCount(v: Volume, part: seq<nat>, c: nat, buf: seq<Byte>)
    requires 2 <= c < |v.clusters| <= |v.fat| && v.fat[c] == FREE && forall p <- part :: p < |v.fat| && v.fat[p] != FREE
    ensures |FreeClusters(Grown(v, part, c, buf))| == |FreeClusters(v)| - 1
  {
    assert FreeClusters(Grown(v, part, c, buf)) == FreeClusters(v) - {c};
    assert c in FreeClusters(v);
  }

  lemma NoneFree(v: Volume)
    requires |v.clusters| <= |v.fat| && forall c :: 2 <= c < |v.clusters| ==> v.fat[c] != FREE
    ensures |FreeClusters(v)| == 0
  {
    assert FreeClusters(v) == {};
  }

  // ---------------------------------------------------------------- the write loop

  /** A cluster's worth of data, padded with zeros. */
  function Padded(data: seq<Byte>, k: nat): (r: seq<Byte>)
    requires |data| <= k
    ensures |r| == k
  {
    data + seq(k - |data|, _ => 0)
  }

  method ClusterBuffer(data: seq<Byte>, from: nat, count: nat, k: nat) returns (buffer: seq<Byte>)
    requires from + count <= |data| && count <= k
    ensures buffer == Padded(data[from..from + count], k)
    ensures |buffer| == k && forall b :: 0 <= b < k ==> buffer[b] == if b < count then data[from + b] else 0
  {
    var dst := new Byte[k](_ => 0);
    for b := 0 to count
      invariant dst[..b] == data[from..from + b] && forall z :: b <= z < k ==> dst[z] == 0
    {
      dst[b] := data[from + b];
    }
    buffer := dst[..];
  }

  /** How far a write into slot t has come. v1 is the volume the loop started from. */
  ghost predicate Writing(v1: Volume, v: Volume, k: nat, ch: Chains, own: map<nat, Place>, t: nat, data: seq<Byte>, i: nat, written: nat) {
    && Kept(v, k, ch, own, Some(t)) && t < |ch| && |ch[t]| == i
    && Written(v1, v, ch[t], data, written, k)
    && |FreeClusters(v)| + i == |FreeClusters(v1)|
    && written == (if i * k < |data| then i * k else |data|)
    && (i > 0 ==> ch[t][i - 1] < |v.fat| && v.fat[ch[t][i - 1]] == END_MARK)
  }

  lemma WritingStarts(v1: Volume, k: nat, ch: Chains, own: map<nat, Place>, t: nat, data: seq<Byte>)
    requires Kept(v1, k, ch, own, Some(t)) && t < |ch| && ch[t] == []
    ensures Writing(v1, v1, k, ch, own, t, data, 0, 0)
  {
    hide Kept;
    WrittenStart(v1, data, k);
  }

  lemma WritingMore(v1: Volume, v: Volume, k: nat, ch: Chains, own: map<nat, Place>, t: nat, data: seq<Byte>, i: nat, written: nat,
                    c: nat, more: nat)
    requires Writing(v1, v, k, ch, own, t, data, i, written) && written < |data|
    requires 2 <= c < |v.clusters| <= |v.fat| && v.fat[c] == FREE && (forall p <- ch[t] :: p < |v.fat|)
    requires more == (if written + k > |data| then |data| - written else k)
    ensures Writing(v1, Grown(v, ch[t], c, Padded(data[written..written + more], k)), k,
                    ch[t := ch[t] + [c]], own[c := Place(t, |ch[t]|)], t, data, i + 1, written + more)
  {
    var buf, part := Padded(data[written..written + more], k), ch[t];
    ChainUsed(v, k, ch, own, t, Some(t));
    KeptGrown(v, k, ch, own, t, c, buf);
    assert k > 0;
    hide Kept;
    WrittenMore(v1, v, part, data, written, k, c, buf, more);
    GrownCount(v, part, c, buf);
    GrownEnds(v, part, c, buf);
    BytesSoFar(i, k, |data|, written, more);
    hide Written, FreeClusters, Grown, Padded;
  }

  lemma GrownEnds(v: Volume, part: seq<nat>, c: nat, buf: seq<Byte>)
    requires c < |v.clusters| <= |v.fat| && c !in part && forall p <- part :: p < |v.fat|
    ensures c < |Grown(v, part, c, buf).fat| && Grown(v, part, c, buf).fat[c] == END_MARK
  {
    if part != [] { assert part[|part| - 1] in part; }
  }

  lemma BytesSoFar(i: nat, k: nat, size: nat, written: nat, more: nat)
    requires written == (if i * k < size then i * k else size) && written < size
    requires more == if written + k > size then size - written else k
    ensures written + more == if (i + 1) * k < size then (i + 1) * k else size
  {
    OneRow(i, k);
  }

  /** The facts about a write in progress that taking one more cluster needs. */
  lemma WritingFacts(v1: Volume, v: Volume, k: nat, ch: Chains, own: map<nat, Place>, t: nat, data: seq<Byte>, i: nat, written: nat)
    requires Writing(v1, v, k, ch, own, t, data, i, written)
    ensures t < |ch| && |ch[t]| == i && |v.clusters| <= |v.fat| && k > 0 && written <= |data|
    ensures forall p <- ch[t] :: p < |v.fat| && v.fat[p] != FREE
  {
    hide Written;
    ChainUsed(v, k, ch, own, t, Some(t));
  }

  /** A cluster claimed and linked to the end of the chain so far. */
  method TakeCluster(fs: Driver, prev: nat, ghost part: seq<nat>, first: bool) returns (ok: bool, cluster: nat)
    requires fs.Valid() && (first <==> part == []) && (!first ==> prev == part[|part| - 1])
    requires |fs.Vol().clusters| == fs.g.Clusters() <= |fs.Vol().fat| && fs.g.Clusters() <= 0xFFF7
    requires forall p <- part :: p < |fs.Vol().fat|
    modifies fs.disk
    ensures fs.Valid()
    ensures !ok ==> fs.Vol() == old(fs.Vol()) && |FreeClusters(fs.Vol())| == 0
    ensures ok ==> 2 <= cluster < fs.g.Clusters() && old(fs.Vol()).fat[cluster] == FREE
    ensures ok ==> fs.Vol() == old(fs.Vol()).(fat := Extended(old(fs.Vol()).fat, part, cluster))
  {
    hide VolumeOf, Mirrored, DiskFits, Geometry.Clusters;
    ok, cluster := fs.FatAllocCluster();
    if !ok {
      NoneFree(fs.Vol());
      return;
    }
    if !first {
      assert prev in part;
      fs.FatWriteEntry(prev, cluster);
    }
  }

  /** One more cluster, or none when no cluster is free. */
  method WriteOne(fs: Driver, data: seq<Byte>, i: nat, prev: nat, written: nat,
                  ghost v1: Volume, ghost ch: Chains, ghost own: map<nat, Place>, ghost t: nat)
      returns (ok: bool, cluster: nat, more: nat, ghost ch': Chains, ghost own': map<nat, Place>)
    requires fs.Valid() && Writing(v1, fs.Vol(), fs.g.ClusterBytes(), ch, own, t, data, i, written) && written < |data|
    requires i > 0 ==> |ch[t]| == i && prev == ch[t][i - 1]
    modifies fs.disk
    ensures fs.Valid()
    ensures !ok ==> fs.Vol() == old(fs.Vol()) && |FreeClusters(fs.Vol())| == 0 && ch' == ch && own' == own
    ensures ok ==> Writing(v1, fs.Vol(), fs.g.ClusterBytes(), ch', own', t, data, i + 1, written + more)
    ensures ok ==> t < |ch| == |ch'| && ch' == ch[t := ch[t] + [cluster]]
  {
    hide VolumeOf, Mirrored, DiskFits, Geometry.Clusters, Writing;
    ghost var v, k := fs.Vol(), fs.g.ClusterBytes();
    WritingFacts(v1, v, k, ch, own, t, data, i, written);
    FatRead.DiskSizes(fs);
    ch', own', more := ch, own, 0;
    ok, cluster := TakeCluster(fs, prev, ch[t], i == 0);
    if !ok { return; }
    var clusterBytes := fs.g.ClusterBytes();
    more := if written + clusterBytes > |data| then |data| - written else clusterBytes;
    var buffer := ClusterBuffer(data, written, more, clusterBytes);
    fs.WriteCluster(cluster, buffer);
    assert fs.Vol() == Grown(v, ch[t], cluster, buffer);
    WritingMore(v1, v, k, ch, own, t, data, i, written, cluster, more);
    ch', own' := ch[t := ch[t] + [cluster]], own[cluster := Place(t, |ch[t]|)];
  }

  lemma {:induction false} NeededBounds(size: nat, k: nat, i: nat)
    requires k > 0
    ensures i < Needed(size, k) <==> i * k < size
  {
    if i == 0 || size <= k {
      if i > 0 { Rows(0, i, k); }
    } else {
      NeededBounds(size - k, k, i - 1);
      OneRow(i - 1, k);
    }
  }

  /** Clusters in use hold what they held. */
  ghost predicate SameUsed(v: Volume, v': Volume) {
    && |v'.clusters| == |v.clusters| && |v'.fat| == |v.fat|
    && forall c :: 0 <= c < |v.clusters| && c < |v.fat| && v.fat[c] != FREE ==> v'.clusters[c] == v.clusters[c]
  }

  lemma WrittenSameUsed(v1: Volume, v: Volume, part: seq<nat>, data: seq<Byte>, written: nat, k: nat)
    requires Written(v1, v, part, data, written, k)
    ensures SameUsed(v1, v)
  {
    forall c | 0 <= c < |v.clusters| && c < |v.fat| && v1.fat[c] != FREE
      ensures c !in part
    {
      assert Cleared(v.fat, part)[c] == v1.fat[c];
    }
  }

  /** The chain a finished write leaves. */
  ghost predicate ChainWritten(v1: Volume, v: Volume, k: nat, ch1: Chains, ch: Chains, own: map<nat, Place>, t: nat, data: seq<Byte>, first: nat)
    requires k > 0
  {
    && Kept(v, k, ch, own, Some(t)) && t < |ch| == |ch1| && ch == ch1[t := ch[t]]
    && |ch[t]| == Needed(|data|, k) && first == (if ch[t] == [] then 0 else ch[t][0])
    && |data| <= |Joined(v.clusters, ch[t])| && Joined(v.clusters, ch[t])[..|data|] == data
    && v.slots == v1.slots && SameUsed(v1, v)
    && |FreeClusters(v)| + |ch[t]| == |FreeClusters(v1)|
  }

  lemma WritingDone(v1: Volume, v: Volume, k: nat, ch1: Chains, ch: Chains, own: map<nat, Place>, t: nat, data: seq<Byte>, i: nat,
                    written: nat, first: nat)
    requires Writing(v1, v, k, ch, own, t, data, i, written) && k > 0 && i == Needed(|data|, k)
    requires |ch| == |ch1| && ch == ch1[t := ch[t]] && first == (if ch[t] == [] then 0 else ch[t][0])
    ensures ChainWritten(v1, v, k, ch1, ch, own, t, data, first)
  {
    NeededBounds(|data|, k, i);
    hide Kept, FreeClusters, Cleared, Joined;
    WrittenSameUsed(v1, v, ch[t], data, written, k);
    assert data[..|data|] == data;
  }

  /** What is left when the disk fills up: the table the write started from, and the slots. */
  lemma WritingUndone(v1: Volume, v: Volume, k: nat, ch: Chains, own: map<nat, Place>, t: nat, data: seq<Byte>, i: nat, written: nat)
    requires Writing(v1, v, k, ch, own, t, data, i, written)
    ensures ch[t] == [] ==> v.fat == v1.fat
    ensures ch[t] != [] ==> FreeFrom(v.fat, ch[t][0]) == v1.fat && ch[t][0] >= 2
    ensures var v' := v.(fat := v1.fat); Kept(v', k, ch[t := []], Without(own, t), Some(t)) && SameUsed(v1, v') && v'.slots == v1.slots
    ensures LinksInside(v.fat, |v.clusters|) && (ch[t] != [] ==> ch[t][0] < |v.clusters|)
  {
    ChainFacts(v, k, ch, own, t, Some(t));
    KeptCleared(v, k, ch, own, t, Some(t));
    FatRead.LinksStayInside(v, k, ch, own, Some(t));
    hide Kept, FreeClusters, Joined, Without;
    WrittenSameUsed(v1, v, ch[t], data, written, k);
    if ch[t] == [] {
      assert Cleared(v.fat, ch[t]) == v.fat;
    } else {
      FreeFromClears(v.fat, ch[t]);
      assert ch[t][0] in ch[t];
    }
  }

  /** Data written to a new chain, or the clusters taken for it given back when they run out. */
  method WriteChain(fs: Driver, data: seq<Byte>, ghost ch1: Chains, ghost own1: map<nat, Place>, ghost t: nat)
      returns (ok: bool, first: nat, ghost ch: Chains, ghost own: map<nat, Place>)
    requires fs.Valid() && Kept(fs.Vol(), fs.g.ClusterBytes(), ch1, own1, Some(t)) && t < |ch1| && ch1[t] == []
    modifies fs.disk
    ensures fs.Valid() && fs.g.ClusterBytes() > 0
    ensures ok <==> Needed(|data|, fs.g.ClusterBytes()) <= |FreeClusters(old(fs.Vol()))|
    ensures ok ==> ChainWritten(old(fs.Vol()), fs.Vol(), fs.g.ClusterBytes(), ch1, ch, own, t, data, first)
    ensures !ok ==> Kept(fs.Vol(), fs.g.ClusterBytes(), ch, own, Some(t)) && ch == ch1
    ensures !ok ==> fs.Vol().fat == old(fs.Vol()).fat && fs.Vol().slots == old(fs.Vol()).slots && SameUsed(old(fs.Vol()), fs.Vol())
  {
    hide VolumeOf, Mirrored, DiskFits, Geometry.Clusters, Writing, Kept, Needed;
    ghost var v1, k := fs.Vol(), fs.g.ClusterBytes();
    FatRead.DiskSizes(fs);
    var clusterBytes := fs.g.ClusterBytes();
    var needed := if |data| == 0 then 0 else (|data| + clusterBytes - 1) / clusterBytes;
    NeededIs(|data|, k);
    WritingStarts(v1, k, ch1, own1, t, data);
    first, ch, own := 0, ch1, own1;
    var prev, written: nat := 0, 0;
    var i := 0;
    while i < needed
      invariant fs.Valid() && 0 <= i <= needed && Writing(v1, fs.Vol(), k, ch, own, t, data, i, written)
      invariant t < |ch| == |ch1| && ch == ch1[t := ch[t]] && |ch[t]| == i
      invariant first == (if ch[t] == [] then 0 else ch[t][0]) && (i > 0 ==> prev == ch[t][i - 1])
    {
      NeededBounds(|data|, k, i);
      WritingBytes(v1, fs.Vol(), k, ch, own, t, data, i, written);
      var more, cluster;
      ok, cluster, more, ch, own := WriteOne(fs, data, i, prev, written, v1, ch, own, t);
      if !ok {
        WritingUndone(v1, fs.Vol(), k, ch, own, t, data, i, written);
        if first != 0 { fs.FatFreeChain(first); }
        ch, own := ch[t := []], Without(own, t);
        assert ch == ch1;
        return;
      }
      if i == 0 { first := cluster; }
      prev, written, i := cluster, written + more, i + 1;
    }
    WritingBytes(v1, fs.Vol(), k, ch, own, t, data, i, written);
    if needed > 0 { fs.FatWriteEntry(prev, END_MARK); }
    ok := true;
    WritingDone(v1, fs.Vol(), k, ch1, ch, own, t, data, i, written, first);
  }

  lemma WritingBytes(v1: Volume, v: Volume, k: nat, ch: Chains, own: map<nat, Place>, t: nat, data: seq<Byte>, i: nat, written: nat)
    requires Writing(v1, v, k, ch, own, t, data, i, written)
    ensures written == if i * k < |data| then i * k else |data|
    ensures |FreeClusters(v)| + i == |FreeClusters(v1)|
    ensures t < |ch| && |ch[t]| == i && (i > 0 ==> ch[t][i - 1] < |v.fat| && v.fat[ch[t][i - 1]] == END_MARK)
    ensures i > 0 ==> v.(fat := v.fat[ch[t][i - 1] := END_MARK]) == v
  {
  }
}
