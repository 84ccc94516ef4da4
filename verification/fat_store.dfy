/** The map from 8.3 names to byte strings that a FAT16 volume stands for, with the room that is left, and what requests do to it
    and are answered. */
module FatStore {
  import opened Options
  import opened Bytes
  import opened FatFiles
  import FatNames
  import FatRead

  /** Characters of a file name: ASCII, and no terminating zero. */
  predicate Ascii(filename: seq<Byte>) { forall c <- filename :: 0 < c < 0x80 }

  function NeededFor(contents: map<Name, seq<Byte>>, name: Name, k: nat): nat
    requires k > 0
  {
    if name in contents then Needed(|contents[name]|, k) else 0
  }

  /** Files by name, free clusters, and vacant directory slots. */
  datatype Store = Store(files: map<Name, seq<Byte>>, free: nat, vacant: nat)

  predicate WriteFits(s: Store, name: Name, data: seq<Byte>, k: nat)
    requires k > 0
  {
    (name in s.files || s.vacant > 0) && Needed(|data|, k) <= s.free + NeededFor(s.files, name, k)
  }

  function AfterWrite(s: Store, name: Name, data: seq<Byte>, k: nat): Store
    requires k > 0 && WriteFits(s, name, data, k)
  {
    Store(s.files[name := data], s.free + NeededFor(s.files, name, k) - Needed(|data|, k), if name in s.files then s.vacant else s.vacant - 1)
  }

  function AfterDelete(s: Store, name: Name, k: nat): Store
    requires k > 0
  {
    Store(s.files - {name}, s.free + NeededFor(s.files, name, k), if name in s.files then s.vacant + 1 else s.vacant)
  }

  datatype Request = Write(filename: seq<Byte>, data: seq<Byte>) | Delete(filename: seq<Byte>) | Read(filename: seq<Byte>, room: nat)

  datatype Reply = Done(ok: bool) | Bytes(bytes: seq<Byte>) | NotFound

  predicate WellFormed(r: Request, k: nat) { r.Write? ==> Ascii(r.filename) && |r.data| + k <= 0x1_0000_0000 }

  /** The one request that damages a volume: an overwrite that does not fit. */
  predicate Damages(s: Store, r: Request, k: nat)
    requires k > 0
  {
    var name := FatNames.FatName(r.filename);
    r.Write? && NeededFor(s.files, name, k) > 0 && !WriteFits(s, name, r.data, k)
  }

  /** It replaces a file that has clusters by data that the free clusters and those do not suffice for. */
  lemma DamagesIs(s: Store, r: Request, k: nat)
    requires k > 0
    ensures var name := FatNames.FatName(r.filename);
      Damages(s, r, k) <==>
        && r.Write? && name in s.files && |s.files[name]| > 0
        && (|r.data| + k - 1) / k > s.free + (|s.files[name]| + k - 1) / k
  {
    hide FatNames.FatName, Needed;
    if r.Write? {
      RoundedUp(|r.data|, k);
      var name := FatNames.FatName(r.filename);
      if name in s.files { RoundedUp(|s.files[name]|, k); }
    }
  }

  lemma RoundedUp(n: nat, k: nat)
    requires k > 0
    ensures Needed(n, k) == (n + k - 1) / k && (Needed(n, k) > 0 <==> n > 0)
  {
    NeededIs(n, k);
    if n > 0 { assert (n - 1 + k) / k == (n - 1) / k + 1; } else { assert (k - 1) / k == 0; }
  }

  function After(s: Store, r: Request, k: nat): Store
    requires k > 0
  {
    var name := FatNames.FatName(r.filename);
    match r
    case Write(_, data) => if WriteFits(s, name, data, k) then AfterWrite(s, name, data, k) else s
    case Delete(_) => AfterDelete(s, name, k)
    case Read(_, _) => s
  }

  function ReplyTo(s: Store, r: Request, k: nat): Reply
    requires k > 0
  {
    var name := FatNames.FatName(r.filename);
    match r
    case Write(_, data) => Done(WriteFits(s, name, data, k))
    case Delete(_) => Done(name in s.files)
    case Read(_, room) =>
      if name !in s.files then NotFound
      else Bytes(s.files[name][..FatRead.Min(|s.files[name]|, room)])
  }

  function AfterAll(s: Store, rs: seq<Request>, k: nat): Store
    requires k > 0
  {
    if rs == [] then s else After(AfterAll(s, rs[..|rs| - 1], k), rs[|rs| - 1], k)
  }

  function Replies(s: Store, rs: seq<Request>, k: nat): seq<Reply>
    requires k > 0
  {
    if rs == [] then [] else Replies(s, rs[..|rs| - 1], k) + [ReplyTo(AfterAll(s, rs[..|rs| - 1], k), rs[|rs| - 1], k)]
  }

  predicate AllSafe(s: Store, rs: seq<Request>, k: nat)
    requires k > 0
  {
    forall i :: 0 <= i < |rs| ==> WellFormed(rs[i], k) && !Damages(AfterAll(s, rs[..i], k), rs[i], k)
  }

  lemma RunStarts(s: Store, k: nat)
    requires k > 0
    ensures AfterAll(s, [], k) == s && Replies(s, [], k) == []
  {
  }

  lemma RunContinues(s: Store, rs: seq<Request>, i: nat, k: nat)
    requires k > 0 && i < |rs| && AllSafe(s, rs, k)
    ensures WellFormed(rs[i], k) && !Damages(AfterAll(s, rs[..i], k), rs[i], k)
    ensures AfterAll(s, rs[..i + 1], k) == After(AfterAll(s, rs[..i], k), rs[i], k)
    ensures Replies(s, rs[..i + 1], k) == Replies(s, rs[..i], k) + [ReplyTo(AfterAll(s, rs[..i], k), rs[i], k)]
  {
    assert rs[..i + 1][..i] == rs[..i];
  }

  /** A file changes only by requests that name it. */
  lemma {:induction false} Untouched(s: Store, rs: seq<Request>, k: nat, name: Name)
    requires k > 0 && forall r <- rs :: r.Read? || FatNames.FatName(r.filename) != name
    ensures name in AfterAll(s, rs, k).files <==> name in s.files
    ensures name in s.files ==> AfterAll(s, rs, k).files[name] == s.files[name]
  {
    if rs != [] {
      assert forall r <- rs[..|rs| - 1] :: r in rs;
      assert rs[|rs| - 1] in rs;
      Untouched(s, rs[..|rs| - 1], k, name);
    }
  }

  /** The clusters that a set of files needs. */
  ghost function Used(files: map<Name, seq<Byte>>, k: nat): nat
    requires k > 0
    decreases |files|
  {
    if files == map[] then 0 else
      var n :| n in files;
      FewerFiles(files, n);
      Needed(|files[n]|, k) + Used(files - {n}, k)
  }

  lemma FewerFiles(files: map<Name, seq<Byte>>, n: Name)
    requires n in files
    ensures |files - {n}| < |files|
  {
    var rest := files - {n};
    assert rest.Keys == files.Keys - {n};
    assert |rest| == |rest.Keys| && |files| == |files.Keys|;
  }

  lemma {:induction false} UsedWithout(files: map<Name, seq<Byte>>, k: nat, name: Name)
    requires k > 0 && name in files
    ensures Used(files, k) == Needed(|files[name]|, k) + Used(files - {name}, k)
    decreases |files|
  {
    var n :| n in files && Used(files, k) == Needed(|files[n]|, k) + Used(files - {n}, k);
    if n != name {
      FewerFiles(files, n);
      UsedWithout(files - {n}, k, name);
      FewerFiles(files, name);
      UsedWithout(files - {name}, k, n);
      assert files - {n} - {name} == files - {name} - {n};
    }
  }

  /** Free clusters and the clusters of files stay the same in sum, whatever is written and deleted. */
  lemma {:induction false} StoreAddsUp(s: Store, rs: seq<Request>, k: nat)
    requires k > 0
    ensures AfterAll(s, rs, k).free + Used(AfterAll(s, rs, k).files, k) == s.free + Used(s.files, k)
  {
    if rs != [] {
      StoreAddsUp(s, rs[..|rs| - 1], k);
      var mid, r := AfterAll(s, rs[..|rs| - 1], k), rs[|rs| - 1];
      if r.Write? && WriteFits(mid, FatNames.FatName(r.filename), r.data, k) {
        UsedWritten(mid.files, k, FatNames.FatName(r.filename), r.data);
      }
      if r.Delete? { UsedDeleted(mid.files, k, FatNames.FatName(r.filename)); }
    }
  }

  lemma UsedDeleted(files: map<Name, seq<Byte>>, k: nat, name: Name)
    requires k > 0
    ensures Used(files - {name}, k) + NeededFor(files, name, k) == Used(files, k)
  {
    if name in files { UsedWithout(files, k, name); } else { assert files - {name} == files; }
  }

  lemma UsedWritten(files: map<Name, seq<Byte>>, k: nat, name: Name, data: seq<Byte>)
    requires k > 0
    ensures Used(files[name := data], k) + NeededFor(files, name, k) == Used(files, k) + Needed(|data|, k)
  {
    UsedDeleted(files, k, name);
    UsedDeleted(files[name := data], k, name);
    assert files[name := data] - {name} == files - {name};
  }

  // ---------------------------------------------------------------- what the answers say of one another

  /** A request that settles what is stored under a name: a write that has succeeded, or a delete. */
  predicate Settles(r: Request, reply: Reply, name: Name) {
    FatNames.FatName(r.filename) == name && (r.Delete? || (r.Write? && reply == Done(true)))
  }

  /** Nothing between two requests settles what is stored under a name. */
  ghost predicate Between(rs: seq<Request>, replies: seq<Reply>, name: Name, lo: nat, hi: nat)
    requires |replies| == |rs| && hi <= |rs|
  {
    forall i: nat :: lo <= i < hi ==> !Settles(rs[i], replies[i], name)
  }

  /** A read of so much room is answered with a file's bytes, as many as there is room for. */
  predicate Shows(reply: Reply, data: seq<Byte>, room: nat) {
    reply.Bytes? && if |data| <= room then reply.bytes == data else reply.bytes == data[..room]
  }

  /** What the j-th request is answered if the last request before it to settle its name was the i-th: a read shows what was
      written then, and neither a read nor a delete finds anything after a delete. */
  ghost predicate AnswersTo(rs: seq<Request>, replies: seq<Reply>, i: nat, j: nat)
    requires |replies| == |rs| && i < j < |rs|
  {
    var name := FatNames.FatName(rs[j].filename);
    Settles(rs[i], replies[i], name) && Between(rs, replies, name, i + 1, j) ==>
      && (rs[j].Read? && rs[i].Write? ==> Shows(replies[j], rs[i].data, rs[j].room))
      && (rs[j].Read? && rs[i].Delete? ==> replies[j] == NotFound)
      && (rs[j].Delete? ==> replies[j] == Done(rs[i].Write?))
  }

  /** And if none before it has settled its name: what was there at first. */
  ghost predicate AnswersFirst(files: map<Name, seq<Byte>>, rs: seq<Request>, replies: seq<Reply>, j: nat)
    requires |replies| == |rs| && j < |rs|
  {
    var name := FatNames.FatName(rs[j].filename);
    Between(rs, replies, name, 0, j) ==>
      && (rs[j].Read? && name in files ==> Shows(replies[j], files[name], rs[j].room))
      && (rs[j].Read? && name !in files ==> replies[j] == NotFound)
      && (rs[j].Delete? ==> replies[j] == Done(name in files))
  }

  /** Every read is answered with the last successful write of the name that has not been deleted since. */
  ghost predicate LastWrites(files: map<Name, seq<Byte>>, rs: seq<Request>, replies: seq<Reply>) {
    && |replies| == |rs|
    && (forall i: nat, j: nat :: i < j < |rs| ==> AnswersTo(rs, replies, i, j))
    && (forall j: nat :: j < |rs| ==> AnswersFirst(files, rs, replies, j))
  }

  lemma {:induction false} ReplyAt(s: Store, rs: seq<Request>, k: nat, j: nat)
    requires k > 0
    ensures |Replies(s, rs, k)| == |rs|
    ensures j < |rs| ==> Replies(s, rs, k)[j] == ReplyTo(AfterAll(s, rs[..j], k), rs[j], k)
    ensures j < |rs| ==> AfterAll(s, rs[..j + 1], k) == After(AfterAll(s, rs[..j], k), rs[j], k)
  {
    hide ReplyTo, After;
    if rs != [] {
      var n := |rs| - 1;
      ReplyAt(s, rs[..n], k, j);
      if j < n { assert rs[..n][..j] == rs[..j]; }
    }
    if j < |rs| { assert rs[..j + 1][..j] == rs[..j]; }
  }

  /** A request settles what is stored under a name, or it stays as it is. */
  lemma OneSettles(s: Store, r: Request, k: nat, name: Name)
    requires k > 0
    ensures var files, files' := s.files, After(s, r, k).files;
      if Settles(r, ReplyTo(s, r, k), name)
      then if r.Write? then name in files' && files'[name] == r.data else name !in files'
      else (name in files' <==> name in files) && (name in files ==> files'[name] == files[name])
  {
    hide FatNames.FatName, Needed;
  }

  lemma {:induction false} Settled(s: Store, rs: seq<Request>, k: nat, name: Name, lo: nat, hi: nat)
    requires k > 0 && lo <= hi <= |rs| && |Replies(s, rs, k)| == |rs| && Between(rs, Replies(s, rs, k), name, lo, hi)
    ensures var files, files' := AfterAll(s, rs[..lo], k).files, AfterAll(s, rs[..hi], k).files;
      (name in files' <==> name in files) && (name in files ==> files'[name] == files[name])
    decreases hi
  {
    hide ReplyTo, After, Settles, AfterAll, Replies;
    if lo < hi {
      Settled(s, rs, k, name, lo, hi - 1);
      ReplyAt(s, rs, k, hi - 1);
      OneSettles(AfterAll(s, rs[..hi - 1], k), rs[hi - 1], k, name);
    }
  }

  lemma Answered(s: Store, r: Request, k: nat)
    requires k > 0
    ensures var name, reply := FatNames.FatName(r.filename), ReplyTo(s, r, k);
      && (r.Read? && name in s.files ==> Shows(reply, s.files[name], r.room)) && (r.Read? && name !in s.files ==> reply == NotFound)
      && (r.Delete? ==> reply == Done(name in s.files))
  {
    hide FatNames.FatName, Needed;
    if r.Read? && FatNames.FatName(r.filename) in s.files {
      assert s.files[FatNames.FatName(r.filename)][..|s.files[FatNames.FatName(r.filename)]|] == s.files[FatNames.FatName(r.filename)];
    }
  }

  lemma FirstAnswers(s: Store, rs: seq<Request>, k: nat, j: nat)
    requires k > 0 && j < |rs| && |Replies(s, rs, k)| == |rs|
    ensures AnswersFirst(s.files, rs, Replies(s, rs, k), j)
  {
    hide ReplyTo, After, Settles, AfterAll, Replies, Shows, Between, FatNames.FatName;
    ReplyAt(s, rs, k, j);
    Answered(AfterAll(s, rs[..j], k), rs[j], k);
    RunStarts(s, k);
    assert rs[..0] == [];
    var name := FatNames.FatName(rs[j].filename);
    if Between(rs, Replies(s, rs, k), name, 0, j) { Settled(s, rs, k, name, 0, j); }
  }

  lemma LaterAnswers(s: Store, rs: seq<Request>, k: nat, i: nat, j: nat)
    requires k > 0 && i < j < |rs| && |Replies(s, rs, k)| == |rs|
    ensures AnswersTo(rs, Replies(s, rs, k), i, j)
  {
    hide ReplyTo, After, Settles, AfterAll, Replies, Shows, Between, FatNames.FatName;
    var name := FatNames.FatName(rs[j].filename);
    ReplyAt(s, rs, k, i);
    ReplyAt(s, rs, k, j);
    Answered(AfterAll(s, rs[..j], k), rs[j], k);
    OneSettles(AfterAll(s, rs[..i], k), rs[i], k, name);
    if Settles(rs[i], Replies(s, rs, k)[i], name) && Between(rs, Replies(s, rs, k), name, i + 1, j) {
      Settled(s, rs, k, name, i + 1, j);
      SettlesWhich(rs[i], Replies(s, rs, k)[i], name);
    }
  }

  /** The answers of every run from a store: reads show what was last written. */
  lemma RepliesShow(s: Store, rs: seq<Request>, k: nat)
    requires k > 0
    ensures LastWrites(s.files, rs, Replies(s, rs, k))
  {
    ReplyAt(s, rs, k, 0);
    hide AnswersFirst, AnswersTo, Replies;
    forall j: nat | j < |rs| ensures AnswersFirst(s.files, rs, Replies(s, rs, k), j) { FirstAnswers(s, rs, k, j); }
    forall i: nat, j: nat | i < j < |rs| ensures AnswersTo(rs, Replies(s, rs, k), i, j) { LaterAnswers(s, rs, k, i, j); }
  }

  lemma SettlesWhich(r: Request, reply: Reply, name: Name)
    requires Settles(r, reply, name)
    ensures r.Write? || r.Delete?
  {
  }
}
