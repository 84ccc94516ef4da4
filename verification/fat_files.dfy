/** Files on a FAT16 volume: what keeps their cluster chains apart, and the map from 8.3 names to byte
    strings that the volume stands for. */
module FatFiles {
  import opened Options
  import opened Bytes
  import opened FatLayout
  import opened Fat16

  // ---------------------------------------------------------------- contents of a chain

  function ClusterOf(clusters: seq<seq<Byte>>, c: nat): seq<Byte> { if c < |clusters| then clusters[c] else [] }

  /** The clusters of a chain end to end. */
  function Joined(clusters: seq<seq<Byte>>, chain: seq<nat>): seq<Byte> {
    if chain == [] then [] else Joined(clusters, chain[..|chain| - 1]) + ClusterOf(clusters, chain[|chain| - 1])
  }

  lemma {:induction false} JoinedSame(clusters: seq<seq<Byte>>, clusters': seq<seq<Byte>>, chain: seq<nat>)
    requires forall c <- chain :: ClusterOf(clusters, c) == ClusterOf(clusters', c)
    ensures Joined(clusters, chain) == Joined(clusters', chain)
  {
    if chain != [] {
      assert forall c <- chain[..|chain| - 1] :: c in chain;
      JoinedSame(clusters, clusters', chain[..|chain| - 1]);
    }
  }

  /** Clusters needed for a number of bytes. */
  function Needed(size: nat, clusterBytes: nat): nat
    requires clusterBytes > 0
  {
    if size == 0 then 0 else if size <= clusterBytes then 1 else 1 + Needed(size - clusterBytes, clusterBytes)
  }

  /** The driver's formula. */
  lemma {:induction false} NeededIs(size: nat, k: nat)
    requires k > 0
    ensures Needed(size, k) == if size == 0 then 0 else (size + k - 1) / k
  {
    if size > k {
      NeededIs(size - k, k);
      OneMore(size - k + k - 1, k);
    } else if size > 0 {
      OneMore(size - 1, k);
      SmallQuotient(size - 1, k);
    }
  }

  lemma OneMore(n: nat, k: nat)
    requires k > 0
    ensures (n + k) / k == n / k + 1
  {
    var q, r := n / k, n % k;
    assert n + k == (q + 1) * k + r;
    Quotient(n + k, k, q + 1, r);
  }

  lemma Quotient(n: nat, k: nat, q: nat, r: nat)
    requires n == q * k + r && r < k
    ensures n / k == q
  {
    var p, s := n / k, n % k;
    assert n == p * k + s;
    if p < q { Rows(p, q, k); } else if q < p { Rows(q, p, k); }
  }

  lemma SmallQuotient(n: nat, k: nat)
    requires n < k
    ensures n / k == 0
  {
  }

  lemma {:induction false} JoinedLength(clusters: seq<seq<Byte>>, chain: seq<nat>, size: nat, k: nat)
    requires k > 0 && |chain| == Needed(size, k) && forall c <- chain :: |ClusterOf(clusters, c)| == k
    ensures size <= |Joined(clusters, chain)|
    ensures |Joined(clusters, chain)| < size + k
    decreases size
  {
    if size > 0 {
      var init := chain[..|chain| - 1];
      assert forall c <- init :: c in chain;
      assert chain[|chain| - 1] in chain;
      if size > k { JoinedLength(clusters, init, size - k, k); }
    }
  }

  // ---------------------------------------------------------------- the invariant

  /** Where a cluster is: in which slot's chain, and how far along. */
  datatype Place = Place(slot: nat, pos: nat)

  type Chains = seq<seq<nat>>

  /** Chains and places are two views of the same thing, so no cluster is in two chains or twice in one. */
  ghost predicate Disjoint(ch: Chains, own: map<nat, Place>, limit: nat) {
    && (forall i, k :: 0 <= i < |ch| && 0 <= k < |ch[i]| ==> ch[i][k] in own && own[ch[i][k]] == Place(i, k))
    && (forall c <- own :: 2 <= c < limit && own[c].slot < |ch| && own[c].pos < |ch[own[c].slot]| && ch[own[c].slot][own[c].pos] == c)
  }

  predicate LinkedAt(fat: seq<nat>, chain: seq<nat>, k: nat)
    requires k < |chain| && chain[k] < |fat|
  {
    if k + 1 < |chain| then fat[chain[k]] == chain[k + 1] else FIRST_END <= fat[chain[k]] < 0x1_0000
  }

  /** The table links the chain from its first cluster to an end mark. */
  ghost predicate Linked(fat: seq<nat>, chain: seq<nat>) {
    forall k :: 0 <= k < |chain| ==> chain[k] < |fat| && LinkedAt(fat, chain, k)
  }

  /** A used slot points to its chain, a file's chain is as long as its size needs, and nothing else has
      clusters. */
  ghost predicate SlotKept(d: Dirent, chain: seq<nat>, clusterBytes: nat)
    requires clusterBytes > 0
  {
    && (Vacant(d) ==> chain == [])
    && (!Vacant(d) ==> d.first == if chain == [] then 0 else chain[0])
    && (Regular(d) ==> |chain| == Needed(d.size, clusterBytes))
    && |d.name| == 11
  }

  /** Names of files are unique, and nothing is in use past the end of the directory. */
  ghost predicate DirectoryKept(slots: seq<Dirent>) {
    && (forall i, j :: 0 <= i < j < |slots| && Regular(slots[i]) && Regular(slots[j]) ==> slots[i].name != slots[j].name)
    && (forall i, j :: 0 <= i < j < |slots| && FirstByte(slots[i]) == 0 ==> FirstByte(slots[j]) == 0)
  }

  ghost predicate Sizes(v: Volume, clusterBytes: nat) {
    && clusterBytes > 0 && |v.clusters| <= |v.fat| && |v.clusters| <= 0xFFF7
    && forall c :: 2 <= c < |v.clusters| ==> |v.clusters[c]| == clusterBytes
  }

  /** What holds of a volume between operations. `hole` is a slot being rewritten, if any: its chain is
      what has been built so far. */
  ghost predicate Kept(v: Volume, clusterBytes: nat, ch: Chains, own: map<nat, Place>, hole: Option<nat>) {
    && Sizes(v, clusterBytes) && |ch| == |v.slots|
    && Disjoint(ch, own, |v.clusters|)
    && (forall c :: 2 <= c < |v.clusters| ==> (v.fat[c] != FREE <==> c in own))
    && (forall i :: 0 <= i < |ch| ==> Linked(v.fat, ch[i]))
    && (forall i :: 0 <= i < |ch| && Some(i) != hole ==> SlotKept(v.slots[i], ch[i], clusterBytes))
    && DirectoryKept(v.slots)
  }

  // ---------------------------------------------------------------- names to byte strings

  type Name = seq<Byte>

  function FileAt(v: Volume, ch: Chains, i: nat): seq<Byte>
    requires i < |v.slots| && i < |ch|
  {
    var bytes := Joined(v.clusters, ch[i]);
    if v.slots[i].size <= |bytes| then bytes[..v.slots[i].size] else bytes
  }

  function Names(slots: seq<Dirent>): set<Name> { set i | 0 <= i < |slots| && Regular(slots[i]) :: slots[i].name }

  /** The files of the volume. */
  ghost function Files(v: Volume, ch: Chains): map<Name, seq<Byte>> {
    map n <- Names(v.slots) | InFile(v, ch, n) :: FileAt(v, ch, Lookup(v.slots, n, 0).value)
  }

  predicate InFile(v: Volume, ch: Chains, n: Name) {
    var i := Lookup(v.slots, n, 0);
    i.Some? && i.value < |v.slots| && i.value < |ch|
  }

  /** Looking a name up finds the one file that has it. */
  lemma {:induction false} LookupFinds(slots: seq<Dirent>, i: nat, from: nat)
    requires DirectoryKept(slots) && from <= i < |slots| && Regular(slots[i])
    ensures Lookup(slots, slots[i].name, from) == Some(i)
    decreases i - from
  {
    if from < i { LookupFinds(slots, i, from + 1); }
  }

  lemma FilesOnly(v: Volume, ch: Chains, n: Name)
    requires DirectoryKept(v.slots) && |ch| == |v.slots|
    ensures n in Files(v, ch) <==> Lookup(v.slots, n, 0).Some?
    ensures n in Files(v, ch) ==> Lookup(v.slots, n, 0).value < |v.slots|
    ensures n in Files(v, ch) ==> Files(v, ch)[n] == FileAt(v, ch, Lookup(v.slots, n, 0).value)
  {
    LookupInside(v.slots, n, 0);
    if n in Files(v, ch) {
      var i :| 0 <= i < |v.slots| && Regular(v.slots[i]) && v.slots[i].name == n;
      LookupFinds(v.slots, i, 0);
    }
  }

  /** A slot rewritten as a file: the map gains or replaces one name. */
  lemma FilesWritten(v: Volume, ch: Chains, v': Volume, ch': Chains, t: nat, d: Dirent)
    requires DirectoryKept(v.slots) && DirectoryKept(v'.slots) && |ch| == |v.slots| == |ch'| && t < |v.slots|
    requires v'.slots == v.slots[t := d] && Regular(d) && (Regular(v.slots[t]) ==> v.slots[t].name == d.name)
    requires forall i :: 0 <= i < |ch| && i != t && Regular(v.slots[i]) ==> FileAt(v', ch', i) == FileAt(v, ch, i)
    ensures Files(v', ch') == Files(v, ch)[d.name := FileAt(v', ch', t)]
  {
    hide Files, FileAt, DirectoryKept, Lookup, Regular;
    forall n: Name
      ensures n in Files(v', ch') <==> n in Files(v, ch) || n == d.name
      ensures n in Files(v', ch') ==> Files(v', ch')[n] == if n == d.name then FileAt(v', ch', t) else Files(v, ch)[n]
    {
      LookupKept(v.slots, v'.slots, t, n);
      FilesOnly(v, ch, n);
      FilesOnly(v', ch', n);
      LookupInside(v.slots, n, 0);
      LookupInside(v'.slots, n, 0);
      LookupFinds(v'.slots, t, 0);
    }
  }

  lemma VacantIsNotRegular(d: Dirent)
    requires Vacant(d)
    ensures !Regular(d)
  {
  }

  /** A file's slot vacated: the map loses its name. */
  lemma FilesRemoved(v: Volume, ch: Chains, v': Volume, ch': Chains, t: nat, d: Dirent)
    requires DirectoryKept(v.slots) && DirectoryKept(v'.slots) && |ch| == |v.slots| == |ch'| && t < |v.slots|
    requires v'.slots == v.slots[t := d] && Vacant(d) && Regular(v.slots[t])
    requires forall i :: 0 <= i < |ch| && i != t && Regular(v.slots[i]) ==> FileAt(v', ch', i) == FileAt(v, ch, i)
    ensures Files(v', ch') == Files(v, ch) - {v.slots[t].name}
  {
    VacantIsNotRegular(d);
    hide Files, FileAt, DirectoryKept, Lookup, Regular;
    forall n: Name
      ensures n in Files(v', ch') <==> n in Files(v, ch) && n != v.slots[t].name
      ensures n in Files(v', ch') ==> Files(v', ch')[n] == Files(v, ch)[n]
    {
      LookupKept(v.slots, v'.slots, t, n);
      FilesOnly(v, ch, n);
      FilesOnly(v', ch', n);
      LookupInside(v.slots, n, 0);
      LookupInside(v'.slots, n, 0);
      LookupFinds(v.slots, t, 0);
      if n in Files(v', ch') {
        var i := Lookup(v'.slots, n, 0).value;
        assert n != v.slots[t].name && i != t && Lookup(v.slots, n, 0) == Some(i);
      }
    }
    var expected := Files(v, ch) - {v.slots[t].name};
    assert forall n: Name :: n in expected <==> n in Files(v', ch');
  }

  /** Rewriting slot t moves no other file. */
  lemma LookupKept(slots: seq<Dirent>, slots': seq<Dirent>, t: nat, n: Name)
    requires DirectoryKept(slots) && DirectoryKept(slots') && t < |slots| == |slots'| && slots' == slots[t := slots'[t]]
    ensures !(Regular(slots[t]) && slots[t].name == n) && !(Regular(slots'[t]) && slots'[t].name == n) ==>
      Lookup(slots', n, 0) == Lookup(slots, n, 0)
    ensures Regular(slots[t]) && slots[t].name == n && !(Regular(slots'[t]) && slots'[t].name == n) ==> Lookup(slots', n, 0) == None
    ensures Regular(slots'[t]) && slots'[t].name == n ==> Lookup(slots', n, 0) == Some(t)
  {
    LookupInside(slots, n, 0);
    LookupInside(slots', n, 0);
    if Lookup(slots', n, 0).Some? && Lookup(slots', n, 0).value != t {
      LookupFinds(slots, Lookup(slots', n, 0).value, 0);
    }
    if Lookup(slots, n, 0).Some? && Lookup(slots, n, 0).value != t {
      LookupFinds(slots', Lookup(slots, n, 0).value, 0);
    }
    if Regular(slots'[t]) && slots'[t].name == n { LookupFinds(slots', t, 0); }
    if Regular(slots[t]) && slots[t].name == n { LookupFinds(slots, t, 0); }
  }

  // ---------------------------------------------------------------- freeing a chain

  /** The table with the entries of a chain zeroed. */
  function Cleared(fat: seq<nat>, chain: seq<nat>): seq<nat> {
    seq(|fat|, c requires 0 <= c < |fat| => if c in chain then FREE else fat[c])
  }

  ghost predicate NoRepeats(chain: seq<nat>) { forall i, j :: 0 <= i < j < |chain| ==> chain[i] != chain[j] }

  lemma FreeFromStep(fat: seq<nat>, c: nat)
    requires IsLink(c) && c < |fat|
    ensures FreeFrom(fat, c) == FreeFrom(fat[c := FREE], fat[c])
  {
  }

  lemma {:induction false} FreeFromClears(fat: seq<nat>, chain: seq<nat>)
    requires Linked(fat, chain) && NoRepeats(chain) && chain != [] && forall c <- chain :: IsLink(c)
    ensures FreeFrom(fat, chain[0]) == Cleared(fat, chain)
    decreases |chain|
  {
    FreeFromStep(fat, chain[0]);
    var c, fat', rest := chain[0], fat[chain[0] := FREE], chain[1..];
    ZeroedOne(fat, c);
    assert LinkedAt(fat, chain, 0);
    if rest == [] {
      assert !IsLink(fat[c]);
      assert Cleared(fat, chain) == fat';
    } else {
      hide FreeFrom, NonZero;
      forall k | 0 <= k < |rest| ensures rest[k] < |fat'| && LinkedAt(fat', rest, k) {
        assert LinkedAt(fat, chain, k + 1);
        assert rest[k] == chain[k + 1] != c;
      }
      assert forall d <- rest :: d in chain;
      FreeFromClears(fat', rest);
      assert fat[c] == rest[0];
      assert Cleared(fat', rest) == Cleared(fat, chain);
    }
  }

  // ---------------------------------------------------------------- keeping the invariant

  /** The clusters of one chain forgotten. */
  function Without(own: map<nat, Place>, t: nat): map<nat, Place> { map c <- own | own[c].slot != t :: own[c] }

  lemma KeptCleared(v: Volume, k: nat, ch: Chains, own: map<nat, Place>, t: nat, hole: Option<nat>)
    requires Kept(v, k, ch, own, hole) && t < |ch| && (hole == None || hole == Some(t))
    ensures Kept(v.(fat := Cleared(v.fat, ch[t])), k, ch[t := []], Without(own, t), Some(t))
  {
    hide DirectoryKept, SlotKept, Disjoint, Linked, Cleared, Without;
    ClearedLength(v.fat, ch[t]);
    DisjointCleared(ch, own, |v.clusters|, t);
    UsedCleared(v, ch, own, t);
    LinkedNothing(Cleared(v.fat, ch[t]));
    DisjointPlaces(ch, own, |v.clusters|);
    forall i | 0 <= i < |ch| && i != t
      ensures Linked(Cleared(v.fat, ch[t]), ch[i])
    {
      LinkedAfterClear(v.fat, ch, own, i, t);
    }
  }

  lemma ClearedLength(fat: seq<nat>, chain: seq<nat>)
    ensures |Cleared(fat, chain)| == |fat|
  {
  }

  lemma LinkedNothing(fat: seq<nat>)
    ensures Linked(fat, [])
  {
  }

  lemma DisjointPlaces(ch: Chains, own: map<nat, Place>, limit: nat)
    requires Disjoint(ch, own, limit)
    ensures forall i, k :: 0 <= i < |ch| && 0 <= k < |ch[i]| ==> ch[i][k] in own && own[ch[i][k]] == Place(i, k)
  {
  }

  lemma DisjointCleared(ch: Chains, own: map<nat, Place>, limit: nat, t: nat)
    requires Disjoint(ch, own, limit) && t < |ch|
    ensures Disjoint(ch[t := []], Without(own, t), limit)
  {
  }

  lemma UsedCleared(v: Volume, ch: Chains, own: map<nat, Place>, t: nat)
    requires Disjoint(ch, own, |v.clusters|) && t < |ch| && |v.clusters| <= |v.fat|
    requires forall c :: 2 <= c < |v.clusters| ==> (v.fat[c] != FREE <==> c in own)
    ensures forall c :: 2 <= c < |v.clusters| ==> (Cleared(v.fat, ch[t])[c] != FREE <==> c in Without(own, t))
  {
    forall c | 2 <= c < |v.clusters|
      ensures c in own && own[c].slot == t <==> c in ch[t]
    {
      if c in own && own[c].slot == t { assert ch[t][own[c].pos] == c; }
      if c in ch[t] { var j :| 0 <= j < |ch[t]| && ch[t][j] == c; assert own[c] == Place(t, j); }
    }
  }

  lemma LinkedAfterClear(fat: seq<nat>, ch: Chains, own: map<nat, Place>, i: nat, t: nat)
    requires i < |ch| && t < |ch| && i != t && Linked(fat, ch[i])
    requires forall i, k :: 0 <= i < |ch| && 0 <= k < |ch[i]| ==> ch[i][k] in own && own[ch[i][k]] == Place(i, k)
    ensures Linked(Cleared(fat, ch[t]), ch[i])
  {
    forall k | 0 <= k < |ch[i]|
      ensures LinkedAt(Cleared(fat, ch[t]), ch[i], k)
    {
      assert LinkedAt(fat, ch[i], k);
      forall j | 0 <= j < |ch[t]| ensures ch[t][j] != ch[i][k] { assert own[ch[t][j]] == Place(t, j); }
    }
  }

  lemma ChainFacts(v: Volume, k: nat, ch: Chains, own: map<nat, Place>, t: nat, hole: Option<nat>)
    requires Kept(v, k, ch, own, hole) && t < |ch|
    ensures NoRepeats(ch[t]) && Linked(v.fat, ch[t]) && forall c <- ch[t] :: IsLink(c) && 2 <= c < |v.clusters|
    ensures forall c <- ch[t] :: |ClusterOf(v.clusters, c)| == k
  {
    forall i, j | 0 <= i < j < |ch[t]|
      ensures ch[t][i] != ch[t][j]
    {
      assert own[ch[t][i]] == Place(t, i) && own[ch[t][j]] == Place(t, j);
    }
    forall c <- ch[t]
      ensures 2 <= c < |v.clusters|
    {
      var j :| 0 <= j < |ch[t]| && ch[t][j] == c;
      assert c in own;
    }
  }

  // ---------------------------------------------------------------- growing a chain

  /** The table after cluster c is added to the end of a chain. */
  function Extended(fat: seq<nat>, part: seq<nat>, c: nat): (fat': seq<nat>)
    requires c < |fat| && forall p <- part :: p < |fat|
    ensures |fat'| == |fat|
  {
    assert part != [] ==> part[|part| - 1] in part;
    if part == [] then fat[c := END_MARK] else fat[c := END_MARK][part[|part| - 1] := c]
  }

  /** The volume after cluster c, holding buf, is added to the end of a chain. */
  function Grown(v: Volume, part: seq<nat>, c: nat, buf: seq<Byte>): Volume
    requires c < |v.fat| && c < |v.clusters| && forall p <- part :: p < |v.fat|
  {
    v.(fat := Extended(v.fat, part, c), clusters := v.clusters[c := buf])
  }

  lemma KeptGrown(v: Volume, k: nat, ch: Chains, own: map<nat, Place>, t: nat, c: nat, buf: seq<Byte>)
    requires Kept(v, k, ch, own, Some(t)) && t < |ch| && 2 <= c < |v.clusters| && v.fat[c] == FREE && |buf| == k
    requires forall p <- ch[t] :: p < |v.fat|
    ensures Kept(Grown(v, ch[t], c, buf), k, ch[t := ch[t] + [c]], own[c := Place(t, |ch[t]|)], Some(t))
  {
    hide DirectoryKept, SlotKept, Disjoint, Linked;
    var part, v', ch' := ch[t], Grown(v, ch[t], c, buf), ch[t := ch[t] + [c]];
    ChainFacts(v, k, ch, own, t, Some(t));
    DisjointGrown(ch, own, |v.clusters|, t, c);
    DisjointPlaces(ch, own, |v.clusters|);
    if part != [] { assert own[part[|part| - 1]] == Place(t, |part| - 1); }
    forall b | 2 <= b < |v.clusters|
      ensures v'.fat[b] != FREE <==> b in own || b == c
    {
    }
    forall i | 0 <= i < |ch'|
      ensures Linked(v'.fat, ch'[i])
    {
      if i == t {
        LinkedLonger(v.fat, part, c);
      } else {
        forall k | 0 <= k < |ch[i]| ensures ch[i][k] != c && (part != [] ==> ch[i][k] != part[|part| - 1]) {
          assert own[ch[i][k]] == Place(i, k);
        }
        LinkedOther(v.fat, ch[i], part, c);
      }
    }
  }

  lemma DisjointGrown(ch: Chains, own: map<nat, Place>, limit: nat, t: nat, c: nat)
    requires Disjoint(ch, own, limit) && t < |ch| && 2 <= c < limit && c !in own
    ensures Disjoint(ch[t := ch[t] + [c]], own[c := Place(t, |ch[t]|)], limit)
  {
  }

  lemma LinkedOther(fat: seq<nat>, chain: seq<nat>, part: seq<nat>, c: nat)
    requires c < |fat| && Linked(fat, chain) && c !in chain && forall p <- part :: p < |fat|
    requires part != [] ==> part[|part| - 1] !in chain
    ensures Linked(Extended(fat, part, c), chain)
  {
    forall j | 0 <= j < |chain|
      ensures chain[j] < |fat| && LinkedAt(Extended(fat, part, c), chain, j)
    {
      assert LinkedAt(fat, chain, j) && chain[j] in chain;
    }
  }

  lemma LinkedLonger(fat: seq<nat>, part: seq<nat>, c: nat)
    requires c < |fat| && Linked(fat, part) && NoRepeats(part) && c !in part && forall p <- part :: p < |fat|
    ensures Linked(Extended(fat, part, c), part + [c])
  {
    var longer, fat' := part + [c], Extended(fat, part, c);
    forall j | 0 <= j < |longer|
      ensures longer[j] < |fat'| && LinkedAt(fat', longer, j)
    {
      if j + 1 < |part| {
        assert LinkedAt(fat, part, j) && part[j] in part && part[j] != part[|part| - 1];
        assert fat'[part[j]] == fat[part[j]] == longer[j + 1];
      } else if j + 1 == |part| {
        assert part[j] in part && fat'[part[j]] == c == longer[j + 1];
      }
    }
  }

  /** A slot filled in over its finished chain. */
  lemma KeptFinished(v: Volume, k: nat, ch: Chains, own: map<nat, Place>, t: nat, d: Dirent)
    requires Kept(v, k, ch, own, Some(t)) && t < |ch|
    requires SlotKept(d, ch[t], k) && DirectoryKept(v.slots[t := d])
    ensures Kept(v.(slots := v.slots[t := d]), k, ch, own, None)
  {
  }

  /** How far a write has come: the chain so far holds the data so far, undoing it gives back the table
      it started from, and no other cluster has changed. */
  ghost predicate Written(v0: Volume, v: Volume, part: seq<nat>, data: seq<Byte>, written: nat, k: nat) {
    && v.slots == v0.slots && |v.clusters| == |v0.clusters| && |v.fat| == |v0.fat|
    && Cleared(v.fat, part) == v0.fat
    && (forall c :: 0 <= c < |v.clusters| && c !in part ==> v.clusters[c] == v0.clusters[c])
    && written <= |data| && written <= |Joined(v.clusters, part)| && Joined(v.clusters, part)[..written] == data[..written]
    && (written < |data| ==> |Joined(v.clusters, part)| == written)
  }

  lemma WrittenStart(v0: Volume, data: seq<Byte>, k: nat)
    ensures Written(v0, v0, [], data, 0, k)
  {
    assert Cleared(v0.fat, []) == v0.fat;
  }

  lemma WrittenMore(v0: Volume, v: Volume, part: seq<nat>, data: seq<Byte>, written: nat, k: nat, c: nat, buf: seq<Byte>, more: nat)
    requires k > 0 && Written(v0, v, part, data, written, k) && written < |data|
    requires c < |v.fat| && c < |v.clusters| && (forall p <- part :: p < |v.fat|) && c !in part && v.fat[c] == FREE
    requires more == (if written + k > |data| then |data| - written else k)
    requires |buf| == k && buf[..more] == data[written..written + more]
    ensures Written(v0, Grown(v, part, c, buf), part + [c], data, written + more, k)
  {
    var v', part' := Grown(v, part, c, buf), part + [c];
    assert part'[..|part'| - 1] == part;
    JoinedSame(v'.clusters, v.clusters, part);
    assert Joined(v'.clusters, part') == Joined(v.clusters, part) + buf;
    assert data[..written + more] == data[..written] + data[written..written + more];
    assert Joined(v'.clusters, part')[..written + more] == Joined(v.clusters, part)[..written] + buf[..more];
    ClearedGrown(v.fat, part, c);
  }

  lemma ClearedGrown(fat: seq<nat>, part: seq<nat>, c: nat)
    requires c < |fat| && fat[c] == FREE && forall p <- part :: p < |fat|
    ensures part == [] ==> Cleared(fat[c := END_MARK], [c]) == Cleared(fat, [])
    ensures part != [] ==> part[|part| - 1] in part
    ensures part != [] ==> part[|part| - 1] < |fat|
    ensures part != [] ==> Cleared(fat[c := END_MARK][part[|part| - 1] := c], part + [c]) == Cleared(fat, part)
  {
    if part != [] {
      var last := part[|part| - 1];
      assert last in part;
      forall b | 0 <= b < |fat|
        ensures b in part + [c] <==> b in part || b == c
      {
      }
    }
  }

  // ---------------------------------------------------------------- free clusters

  function FreeClusters(v: Volume): set<nat> {
    set c | 2 <= c < |v.clusters| && c < |v.fat| && v.fat[c] == FREE
  }

  predicate IsCluster(c: nat, n: nat) { 2 <= c < n }

  function ClustersBelow(n: nat): set<nat> { set c: nat | c < n && IsCluster(c, n) }

  lemma {:induction false} CountClusters(n: nat)
    requires n >= 2
    ensures |ClustersBelow(n)| == n - 2
  {
    if n == 2 {
      assert ClustersBelow(2) == {};
    } else {
      CountClusters(n - 1);
      forall c: nat ensures c in ClustersBelow(n) <==> c in ClustersBelow(n - 1) || c == n - 1 {
        assert IsCluster(c, n) <==> IsCluster(c, n - 1) || c == n - 1;
      }
      assert ClustersBelow(n) == ClustersBelow(n - 1) + {n - 1};
    }
  }

  /** Conservation: the free clusters and the clusters of files are all the clusters there are. */
  lemma ClustersAddUp(v: Volume, k: nat, ch: Chains, own: map<nat, Place>)
    requires Kept(v, k, ch, own, None) && |v.clusters| >= 2
    ensures |FreeClusters(v)| + |own| == |v.clusters| - 2
    ensures FreeClusters(v) !! own.Keys
  {
    UsedOrFree(v, own.Keys);
    CountClusters(|v.clusters|);
  }

  lemma UsedOrFree(v: Volume, used: set<nat>)
    requires |v.clusters| <= |v.fat| && forall c <- used :: 2 <= c < |v.clusters|
    requires forall c :: 2 <= c < |v.clusters| ==> (v.fat[c] != FREE <==> c in used)
    ensures ClustersBelow(|v.clusters|) == FreeClusters(v) + used && FreeClusters(v) !! used
  {
    forall c: nat ensures c in ClustersBelow(|v.clusters|) <==> c in FreeClusters(v) || c in used {
      assert IsCluster(c, |v.clusters|) <==> 2 <= c < |v.clusters|;
    }
  }
}
