/** Reading a file by walking its chain: fat16_read_file in kernel/fat16.c:164-201. */
module FatRead {
  import opened Options
  import opened Bytes
  import opened FatLayout
  import opened Fat16
  import opened FatFiles

  /** The first n clusters of the chain from c. */
  function Path(fat: seq<nat>, c: nat, n: nat): seq<nat> { seq(n, i requires 0 <= i < n => Follow(fat, c, i)) }

  ghost predicate AllLinks(fat: seq<nat>, c: nat, n: nat) { forall i: nat :: i < n ==> IsLink(Follow(fat, c, i)) }

  function Min(a: nat, b: nat): nat { if a < b then a else b }

  /** How far a walk went: through links only, until the chain ended or the whole file was read. */
  ghost predicate Walked(v: Volume, first: nat, size: nat, room: nat, n: nat) {
    && AllLinks(v.fat, first, n)
    && (!IsLink(Follow(v.fat, first, n)) || (size <= room && |Joined(v.clusters, Path(v.fat, first, n))| >= size))
  }

  lemma {:induction false} JoinedPath(v: Volume, k: nat, c: nat, n: nat)
    requires Sizes(v, k) && LinksInside(v.fat, |v.clusters|) && (IsLink(c) ==> c < |v.clusters|) && AllLinks(v.fat, c, n)
    ensures |Joined(v.clusters, Path(v.fat, c, n))| == n * k
  {
    if n > 0 {
      var path := Path(v.fat, c, n);
      assert path[..n - 1] == Path(v.fat, c, n - 1);
      JoinedPath(v, k, c, n - 1);
      FollowInside(v.fat, |v.clusters|, c, n - 1);
      OneRow(n - 1, k);
    }
  }

  lemma DiskSizes(fs: Driver)
    requires fs.Valid()
    ensures Sizes(fs.Vol(), fs.g.ClusterBytes()) && |fs.Vol().clusters| == fs.g.Clusters()
  {
    hide VolumeOf, Mirrored;
    forall c | 2 <= c < fs.g.Clusters() ensures |fs.Vol().clusters[c]| == fs.g.ClusterBytes() {
      ClusterLength(fs.disk[..], fs.g, c);
    }
  }

  /** Copies the first bytes of src into the buffer. */
  method CopyIn(buffer: array<Byte>, at: nat, src: seq<Byte>, count: nat)
    requires at + count <= buffer.Length && count <= |src|
    modifies buffer
    ensures buffer[..at] == old(buffer[..at]) && buffer[at..at + count] == src[..count]
    ensures buffer[at + count..] == old(buffer[at + count..])
  {
    for b := 0 to count
      invariant buffer[..at] == old(buffer[..at]) && buffer[at..at + b] == src[..b]
      invariant forall i :: at + b <= i < buffer.Length ==> buffer[i] == old(buffer[i])
    {
      buffer[at + b] := src[b];
      assert buffer[at..at + b + 1] == buffer[at..at + b] + [src[b]];
    }
  }

  /** The next cluster, looked up in the last table sector read. */
  method NextCluster(fs: Driver, c: nat, cache: seq<Byte>, cached: nat) returns (next: nat, cache': seq<Byte>, cached': nat)
    requires fs.Valid() && c < |fs.Vol().fat|
    requires cached != 0xFFFF_FFFF ==> cached < fs.disk.Length && cache == fs.disk[cached]
    ensures next == fs.Vol().fat[c]
    ensures cached' != 0xFFFF_FFFF ==> cached' < fs.disk.Length && cache' == fs.disk[cached']
  {
    hide Mirrored;
    FatInside(fs.g, 0, c / ENTRIES_PER_SECTOR);
    EntryPlace(c);
    var sector := fs.g.reserved + c * 2 / SECTOR;
    cache', cached' := cache, cached;
    if sector != cached' {
      cache', cached' := fs.disk[sector], sector;
    }
    next := Le16(cache', c * 2 % SECTOR);
  }

  /** One more cluster copied: what the bytes read so far are. */
  lemma ReadMore(v: Volume, k: nat, first: nat, n: nat, size: nat, room: nat, before: seq<Byte>, done: nat, after: seq<Byte>, more: nat)
    requires k > 0 && |before| == |after| == room && done == Min(n * k, Min(size, room)) && done < size
    requires Follow(v.fat, first, n) < |v.clusters| && |v.clusters[Follow(v.fat, first, n)]| == k
    requires |Joined(v.clusters, Path(v.fat, first, n))| == n * k
    requires before[..done] == Joined(v.clusters, Path(v.fat, first, n))[..done]
    requires more == Min(Min(k, room - done), size - done)
    requires after[..done] == before[..done] && after[done..done + more] == v.clusters[Follow(v.fat, first, n)][..more]
    ensures done + more == Min((n + 1) * k, Min(size, room))
    ensures |Joined(v.clusters, Path(v.fat, first, n + 1))| == (n + 1) * k
    ensures after[..done + more] == Joined(v.clusters, Path(v.fat, first, n + 1))[..done + more]
  {
    OneRow(n, k);
    var path := Path(v.fat, first, n + 1);
    assert path[..n] == Path(v.fat, first, n);
    assert Joined(v.clusters, path) == Joined(v.clusters, path[..n]) + v.clusters[path[n]];
    hide Joined, Path, Follow;
    BytesMore(Joined(v.clusters, path[..n]), v.clusters[path[n]], size, room, before, done, after, more);
  }

  lemma BytesMore(read: seq<Byte>, next: seq<Byte>, size: nat, room: nat, before: seq<Byte>, done: nat, after: seq<Byte>, more: nat)
    requires |before| == |after| == room && done == Min(|read|, Min(size, room)) && done < size
    requires before[..done] == read[..done] && more == Min(Min(|next|, room - done), size - done)
    requires after[..done] == before[..done] && after[done..done + more] == next[..more]
    ensures done + more == Min(|read + next|, Min(size, room)) && after[..done + more] == (read + next)[..done + more]
  {
    assert after[..done + more] == after[..done] + after[done..done + more];
    if done < |read| { assert more == 0; }
  }

  /** The state of a walk: n clusters read, their bytes in the buffer as far as both sizes allow. */
  ghost predicate ReadSoFar(v: Volume, k: nat, first: nat, size: nat, n: nat, done: nat, now: seq<Byte>, was: seq<Byte>) {
    var all := Joined(v.clusters, Path(v.fat, first, n));
    && AllLinks(v.fat, first, n) && |all| == n * k && |now| == |was|
    && done == Min(n * k, Min(size, |was|))
    && now[..done] == all[..done] && now[done..] == was[done..]
  }

  lemma ReadStart(v: Volume, k: nat, first: nat, size: nat, was: seq<Byte>)
    ensures ReadSoFar(v, k, first, size, 0, 0, was, was)
  {
    assert Path(v.fat, first, 0) == [];
  }

  lemma ReadStep(v: Volume, k: nat, first: nat, size: nat, n: nat, done: nat, now: seq<Byte>, was: seq<Byte>, more: nat, after: seq<Byte>)
    requires k > 0 && ReadSoFar(v, k, first, size, n, done, now, was) && done < size && |after| == |now|
    requires IsLink(Follow(v.fat, first, n)) && Follow(v.fat, first, n) < |v.clusters| && |v.clusters[Follow(v.fat, first, n)]| == k
    requires more == Min(Min(k, |was| - done), size - done)
    requires after[..done] == now[..done] && after[done..done + more] == v.clusters[Follow(v.fat, first, n)][..more]
    requires after[done + more..] == now[done + more..]
    ensures ReadSoFar(v, k, first, size, n + 1, done + more, after, was)
  {
    ReadMore(v, k, first, n, size, |was|, now, done, after, more);
    assert now[done + more..] == now[done..][more..];
    assert was[done + more..] == was[done..][more..];
  }

  /** One cluster of the walk. */
  method ReadOne(fs: Driver, cluster: nat, size: nat, buffer: array<Byte>, bytesRead: nat, ghost first: nat, ghost n: nat, ghost was: seq<Byte>)
      returns (toRead: nat)
    requires fs.Valid() && 2 <= cluster < fs.g.Clusters() && bytesRead < size && bytesRead <= buffer.Length
    requires fs.disk as object != buffer && IsLink(cluster) && cluster == Follow(fs.Vol().fat, first, n)
    requires Sizes(fs.Vol(), fs.g.ClusterBytes())
    requires ReadSoFar(fs.Vol(), fs.g.ClusterBytes(), first, size, n, bytesRead, buffer[..], was)
    modifies buffer
    ensures ReadSoFar(fs.Vol(), fs.g.ClusterBytes(), first, size, n + 1, bytesRead + toRead, buffer[..], was)
    ensures size <= buffer.Length ==> toRead > 0
  {
    hide VolumeOf, Mirrored, ReadSoFar, DiskFits, Follow, Flat;
    ghost var now := buffer[..];
    SameLength(fs.Vol(), fs.g.ClusterBytes(), first, size, n, bytesRead, now, was);
    toRead := fs.g.ClusterBytes();
    if bytesRead + toRead > buffer.Length { toRead := buffer.Length - bytesRead; }
    if bytesRead + toRead > size { toRead := size - bytesRead; }
    var src := fs.ReadCluster(cluster);
    CopyIn(buffer, bytesRead, src, toRead);
    ReadStep(fs.Vol(), fs.g.ClusterBytes(), first, size, n, bytesRead, now, was, toRead, buffer[..]);
  }

  lemma SameLength(v: Volume, k: nat, first: nat, size: nat, n: nat, done: nat, now: seq<Byte>, was: seq<Byte>)
    requires ReadSoFar(v, k, first, size, n, done, now, was)
    ensures |now| == |was| && done <= Min(size, |was|)
  {
  }

  /** What the loop of fat16_read_file has in hand after n turns. */
  ghost predicate Reading(fs: Driver, first: nat, size: nat, n: nat, cluster: nat, done: nat,
                          cache: seq<Byte>, cached: nat, now: seq<Byte>, was: seq<Byte>)
    reads fs, fs.disk
  {
    && fs.Valid() && cluster == Follow(fs.Vol().fat, first, n) && done <= |was|
    && ReadSoFar(fs.Vol(), fs.g.ClusterBytes(), first, size, n, done, now, was)
    && (cached != 0xFFFF_FFFF ==> cached < fs.disk.Length && cache == fs.disk[cached])
  }

  /** The body of the loop: one cluster copied, and the next one looked up. */
  method ReadTurn(fs: Driver, first: nat, size: nat, buffer: array<Byte>, cluster: nat, bytesRead: nat,
                  cache: seq<Byte>, cached: nat, ghost n: nat, ghost was: seq<Byte>)
      returns (cluster': nat, bytesRead': nat, cache': seq<Byte>, cached': nat)
    requires Reading(fs, first, size, n, cluster, bytesRead, cache, cached, buffer[..], was)
    requires LinksInside(fs.Vol().fat, fs.g.Clusters()) && (IsLink(first) ==> first < fs.g.Clusters())
    requires fs.disk as object != buffer && IsLink(cluster) && bytesRead < size
    modifies buffer
    ensures Reading(fs, first, size, n + 1, cluster', bytesRead', cache', cached', buffer[..], was)
    ensures size <= buffer.Length ==> bytesRead < bytesRead' <= size
  {
    hide VolumeOf, Mirrored, ReadSoFar, DiskFits, Follow, Flat;
    ghost var v, k := fs.Vol(), fs.g.ClusterBytes();
    DiskSizes(fs);
    SameLength(v, k, first, size, n, bytesRead, buffer[..], was);
    FollowInside(v.fat, |v.clusters|, first, n);
    var toRead := ReadOne(fs, cluster, size, buffer, bytesRead, first, n, was);
    FollowNext(v.fat, first, n);
    cluster', cache', cached' := NextCluster(fs, cluster, cache, cached);
    bytesRead' := bytesRead + toRead;
    SameLength(v, k, first, size, n + 1, bytesRead', buffer[..], was);
  }

  /** fat16_read_file. When the buffer holds the whole file it ends on any table whose links stay inside
      the volume; otherwise the chain has to end. n is the number of clusters read. */
  method ReadFile(fs: Driver, first: nat, size: nat, buffer: array<Byte>) returns (ghost n: nat, ghost count: nat)
    requires fs.Valid() && LinksInside(fs.Vol().fat, fs.g.Clusters()) && (IsLink(first) ==> first < fs.g.Clusters())
    requires size <= buffer.Length || !IsLink(Follow(fs.Vol().fat, first, fs.g.Clusters()))
    requires fs.disk as object != buffer
    modifies buffer
    ensures Walked(fs.Vol(), first, size, buffer.Length, n)
    ensures ReadSoFar(fs.Vol(), fs.g.ClusterBytes(), first, size, n, count, buffer[..], old(buffer[..]))
  {
    hide VolumeOf, Mirrored, ReadSoFar, DiskFits, Follow, Flat;
    ghost var v, k, was := fs.Vol(), fs.g.ClusterBytes(), buffer[..];
    ghost var last: nat := |v.clusters|;
    DiskSizes(fs);
    var cluster: nat, bytesRead: nat := first, 0;
    var cache: seq<Byte>, cached: nat := [], 0xFFFF_FFFF;
    n := 0;
    ReadStart(v, k, first, size, was);
    FollowNone(v.fat, first);
    while IsLink(cluster) && bytesRead < size
      invariant Reading(fs, first, size, n, cluster, bytesRead, cache, cached, buffer[..], was)
      invariant size > buffer.Length ==> n <= last
      decreases if size <= buffer.Length then size - bytesRead else last - n
    {
      if n >= last && size > buffer.Length { FollowEnded(v.fat, first, last, n); }
      cluster, bytesRead, cache, cached := ReadTurn(fs, first, size, buffer, cluster, bytesRead, cache, cached, n, was);
      n := n + 1;
    }
    count := bytesRead;
    ReadStops(v, k, first, size, n, count, buffer[..], was);
  }

  /** The same loop, followed for a number of turns on any table with links in range. With a buffer smaller than the
      file it is over by then exactly if the chain is; otherwise a turn for every byte is enough. */
  method ReadFileFor(fs: Driver, first: nat, size: nat, buffer: array<Byte>, turns: nat) returns (over: bool)
    requires fs.Valid() && LinksInside(fs.Vol().fat, fs.g.Clusters()) && (IsLink(first) ==> first < fs.g.Clusters())
    requires fs.disk as object != buffer
    modifies buffer
    ensures buffer.Length < size ==> (over <==> !IsLink(Follow(fs.Vol().fat, first, turns)))
    ensures size <= buffer.Length && size <= turns ==> over
  {
    hide VolumeOf, Mirrored, ReadSoFar, DiskFits, Follow, Flat;
    ghost var v, k, was := fs.Vol(), fs.g.ClusterBytes(), buffer[..];
    var cluster: nat, bytesRead: nat := first, 0;
    var cache: seq<Byte>, cached: nat := [], 0xFFFF_FFFF;
    var n := 0;
    ReadStart(v, k, first, size, was);
    FollowNone(v.fat, first);
    while n < turns && IsLink(cluster) && bytesRead < size
      invariant Reading(fs, first, size, n, cluster, bytesRead, cache, cached, buffer[..], was) && n <= turns
      invariant size <= buffer.Length ==> n <= bytesRead
    {
      cluster, bytesRead, cache, cached := ReadTurn(fs, first, size, buffer, cluster, bytesRead, cache, cached, n, was);
      n := n + 1;
    }
    over := !(IsLink(cluster) && bytesRead < size);
    if !IsLink(cluster) { FollowEnded(v.fat, first, n, turns); }
  }

  lemma FollowNone(fat: seq<nat>, c: nat)
    ensures Follow(fat, c, 0) == c
  {
  }

  lemma FollowNext(fat: seq<nat>, c: nat, n: nat)
    requires IsLink(Follow(fat, c, n)) && Follow(fat, c, n) < |fat|
    ensures Follow(fat, c, n + 1) == fat[Follow(fat, c, n)]
  {
  }

  lemma ReadStops(v: Volume, k: nat, first: nat, size: nat, n: nat, done: nat, now: seq<Byte>, was: seq<Byte>)
    requires ReadSoFar(v, k, first, size, n, done, now, was) && (!IsLink(Follow(v.fat, first, n)) || done >= size)
    ensures Walked(v, first, size, |was|, n)
  {
  }

  // ---------------------------------------------------------------- chains that never end

  /** More numbers than there are below n repeat. */
  lemma Repeats(s: seq<nat>, n: nat)
    requires |s| > n && forall i :: 0 <= i < |s| ==> s[i] < n
    ensures exists i, j :: 0 <= i < j < |s| && s[i] == s[j]
  {
    if forall i, j :: 0 <= i < j < |s| ==> s[i] != s[j] {
      DistinctFit(s, NumbersBelow(n));
    }
  }

  lemma {:induction false} DistinctFit(s: seq<nat>, all: set<nat>)
    requires forall i :: 0 <= i < |s| ==> s[i] in all
    requires forall i, j :: 0 <= i < j < |s| ==> s[i] != s[j]
    ensures |s| <= |all|
  {
    if s != [] { DistinctFit(s[..|s| - 1], all - {s[|s| - 1]}); }
  }

  function NumbersBelow(n: nat): (all: set<nat>)
    ensures |all| == n && forall i: nat :: i in all <==> i < n
  {
    if n == 0 then {} else NumbersBelow(n - 1) + {n - 1}
  }

  /** A walk that comes back to a cluster goes on as it did from there. */
  lemma {:induction false} Returns(fat: seq<nat>, c: nat, i: nat, j: nat, d: nat)
    requires Follow(fat, c, i) == Follow(fat, c, j)
    ensures Follow(fat, c, i + d) == Follow(fat, c, j + d)
  {
    if d > 0 { Returns(fat, c, i, j, d - 1); }
  }

  lemma {:induction false} ForEver(fat: seq<nat>, c: nat, i: nat, j: nat, n: nat)
    requires i < j && Follow(fat, c, i) == Follow(fat, c, j) && AllLinks(fat, c, j)
    ensures IsLink(Follow(fat, c, n))
    decreases n
  {
    if n >= j {
      Returns(fat, c, i, j, n - j);
      ForEver(fat, c, i, j, i + (n - j));
    }
  }

  /** A chain ends exactly if it ends within as many steps as the volume has clusters. With a buffer smaller than the
      file, that decides whether fat16_read_file ends. */
  lemma EndsWithin(fat: seq<nat>, clusters: nat, c: nat)
    requires LinksInside(fat, clusters) && (IsLink(c) ==> c < clusters)
    ensures Ends(fat, c) <==> !IsLink(Follow(fat, c, clusters))
  {
    if IsLink(Follow(fat, c, clusters)) {
      forall i: nat | i <= clusters
        ensures IsLink(Follow(fat, c, i)) && Follow(fat, c, i) < clusters
      {
        if !IsLink(Follow(fat, c, i)) { FollowEnded(fat, c, i, clusters); }
        FollowInside(fat, clusters, c, i);
      }
      var path := Path(fat, c, clusters + 1);
      Repeats(path, clusters);
      var i, j :| 0 <= i < j < |path| && path[i] == path[j];
      forall n: nat ensures IsLink(Follow(fat, c, n)) { ForEver(fat, c, i, j, n); }
    }
  }

  // ---------------------------------------------------------------- a file's own chain

  /** Following the table from a file's first cluster walks its chain, and the chain ends. */
  lemma {:induction false} FollowChain(fat: seq<nat>, chain: seq<nat>, i: nat)
    requires chain != [] && Linked(fat, chain) && (forall c <- chain :: IsLink(c)) && i <= |chain|
    ensures i < |chain| ==> Follow(fat, chain[0], i) == chain[i]
    ensures i == |chain| ==> !IsLink(Follow(fat, chain[0], i))
  {
    if i > 0 {
      FollowChain(fat, chain, i - 1);
      assert LinkedAt(fat, chain, i - 1) && chain[i - 1] in chain;
    }
  }

  lemma {:induction false} JoinedPrefix(clusters: seq<seq<Byte>>, chain: seq<nat>, n: nat)
    requires n <= |chain|
    ensures Joined(clusters, chain[..n]) <= Joined(clusters, chain)
  {
    if n < |chain| {
      JoinedPrefix(clusters, chain[..|chain| - 1], n);
      assert chain[..|chain| - 1][..n] == chain[..n];
    } else {
      assert chain[..n] == chain;
    }
  }

  lemma LinkAt(fat: seq<nat>, c: nat, n: nat, i: nat)
    requires AllLinks(fat, c, n)
    ensures i < n ==> IsLink(Follow(fat, c, i))
  {
  }

  /** A walk along links from the first cluster of a chain reads a beginning of the chain. */
  lemma WalkInChain(fat: seq<nat>, chain: seq<nat>, first: nat, n: nat)
    requires Linked(fat, chain) && (forall c <- chain :: IsLink(c)) && first == (if chain == [] then 0 else chain[0])
    requires AllLinks(fat, first, n)
    ensures n <= |chain| && Path(fat, first, n) == chain[..n]
    ensures n < |chain| ==> IsLink(Follow(fat, first, n))
  {
    if chain == [] {
      LinkAt(fat, first, n, 0);
    } else {
      FollowChain(fat, chain, |chain|);
      LinkAt(fat, first, n, |chain|);
      forall i | 0 <= i < n ensures Path(fat, first, n)[i] == chain[i] { FollowChain(fat, chain, i); }
      if n < |chain| { FollowChain(fat, chain, n); assert chain[n] in chain; }
    }
  }

  /** A walk from the first cluster of a file leaves the file in the buffer, as far as it fits. */
  lemma WalkReadsFile(v: Volume, k: nat, ch: Chains, own: map<nat, Place>, t: nat, n: nat, count: nat, now: seq<Byte>, was: seq<Byte>)
    requires Kept(v, k, ch, own, None) && t < |ch| && Regular(v.slots[t])
    requires Walked(v, v.slots[t].first, v.slots[t].size, |was|, n)
    requires ReadSoFar(v, k, v.slots[t].first, v.slots[t].size, n, count, now, was)
    ensures |FileAt(v, ch, t)| == v.slots[t].size && count == Min(|FileAt(v, ch, t)|, |was|)
    ensures |now| == |was| && now[..count] == FileAt(v, ch, t)[..count] && now[count..] == was[count..]
  {
    var chain, first, size := ch[t], v.slots[t].first, v.slots[t].size;
    ChainFacts(v, k, ch, own, t, None);
    assert SlotKept(v.slots[t], chain, k) && Sizes(v, k);
    JoinedLength(v.clusters, chain, size, k);
    ReadLength(v, k, first, size, n, count, now, was);
    hide Kept, Disjoint, Linked, DirectoryKept, Follow, Joined, AllLinks, ReadSoFar, SlotKept, Sizes;
    WalkInChain(v.fat, chain, first, n);
    JoinedPrefix(v.clusters, chain, n);
    assert n == |chain| ==> chain[..n] == chain;
    PrefixRead(Joined(v.clusters, chain[..n]), Joined(v.clusters, chain), size, |was|, count, now);
  }

  lemma ReadLength(v: Volume, k: nat, first: nat, size: nat, n: nat, done: nat, now: seq<Byte>, was: seq<Byte>)
    requires ReadSoFar(v, k, first, size, n, done, now, was)
    ensures var all := Joined(v.clusters, Path(v.fat, first, n));
      |now| == |was| && done == Min(|all|, Min(size, |was|)) && now[..done] == all[..done] && now[done..] == was[done..]
  {
  }

  lemma PrefixRead(part: seq<Byte>, whole: seq<Byte>, size: nat, room: nat, count: nat, now: seq<Byte>)
    requires part <= whole && size <= |whole| && (|part| >= size || part == whole)
    requires count == Min(|part|, Min(size, room)) && count <= |now| && now[..count] == part[..count]
    ensures count == Min(size, room) && now[..count] == whole[..size][..count]
  {
    assert whole[..size][..count] == whole[..count] == part[..count];
  }

  /** On a kept volume every chain of a file ends. */
  lemma FileEnds(v: Volume, k: nat, ch: Chains, own: map<nat, Place>, t: nat)
    requires Kept(v, k, ch, own, None) && t < |ch| && !Vacant(v.slots[t])
    ensures LinksInside(v.fat, |v.clusters|) && !IsLink(Follow(v.fat, v.slots[t].first, |v.clusters|))
    ensures IsLink(v.slots[t].first) ==> v.slots[t].first < |v.clusters|
  {
    var chain := ch[t];
    ChainFacts(v, k, ch, own, t, None);
    LinksStayInside(v, k, ch, own, None);
    if chain != [] {
      FollowChain(v.fat, chain, |chain|);
      assert chain[0] in chain;
    } else {
      assert !IsLink(Follow(v.fat, v.slots[t].first, 0));
    }
    EndsWithin(v.fat, |v.clusters|, v.slots[t].first);
  }

  lemma LinksStayInside(v: Volume, k: nat, ch: Chains, own: map<nat, Place>, hole: Option<nat>)
    requires Kept(v, k, ch, own, hole)
    ensures LinksInside(v.fat, |v.clusters|)
  {
    forall c | 2 <= c < |v.clusters| && IsLink(v.fat[c])
      ensures v.fat[c] < |v.clusters|
    {
      var p := own[c];
      assert ch[p.slot][p.pos] == c && LinkedAt(v.fat, ch[p.slot], p.pos);
      if p.pos + 1 < |ch[p.slot]| { assert own[ch[p.slot][p.pos + 1]] == Place(p.slot, p.pos + 1); }
    }
  }
}
