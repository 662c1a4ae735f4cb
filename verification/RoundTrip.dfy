/** Writing a file's data and reading it back, by its cluster and by its path. */
module RoundTrip {
  import opened Arith
  import opened Bytes
  import opened Volume
  import opened Chains
  import opened Driver
  import opened Names
  import opened Directory
  import opened Files
  import opened Writing

  // ---------------------------------------------------------------------
  // By cluster
  // ---------------------------------------------------------------------

  /** How many clusters the data takes; a file has at least its first. */
  function Clusters(contents: seq<byte>, n: nat): nat {
    if contents == [] then 1 else Turns(|contents|, n)
  }

  /** The written chain ends in an end marker: it was one before, or the write has linked it. */
  ghost predicate Terminated(g: Geometry, disk: Disk, first: nat, contents: seq<byte>) {
    InUse(g, disk, first) && (Table(g, disk)[first] >= END32 || Clusters(contents, g.ClusterBytes()) > 1)
  }

  /** What PutData has left, as the read loop needs it. */
  lemma WrittenFollows(g: Geometry, before: Disk, after: Disk, ch: seq<nat>, contents: seq<byte>, first: nat)
    requires Terminated(g, before, first, contents)
    requires GrownTo(g, before, after, ch) && |ch| > 0 && ch[0] == first
    requires if contents == [] then after == before && |ch| == 1 else Complete(g, before, after, ch, contents)
    ensures |ch| == Clusters(contents, g.ClusterBytes())
    ensures IsChain(Table(g, after), ch)
    ensures contents != [] ==>
              AllOnDisk(g, |after|, ch) && Kept(contents, g.ClusterBytes()) <= TrailData(g, after, ch)
  {
    hide Entry, TrailData, Kept, Turns, Run, GrowthSteps, Room;
  }

  lemma LoadedPrefix(m: seq<byte>, before: seq<byte>, base: nat, data: seq<byte>, front: seq<byte>)
    requires Loaded(m, before, base, data) && front <= data
    ensures base + |front| <= |m| && m[base..base + |front|] == front
  {
    LoadedHolds(m, before, base, data);
    assert m[base..base + |front|] == m[base..base + |data|][..|front|];
  }

  /** putFile's write loop, then getFile's read loop from the same cluster: the memory holds the kept
      bytes, and the whole file when it is shorter than a cluster. */
  method PutThenGet(d: Driver, contents: seq<byte>, first: nat, slot: nat) returns (code: int)
    requires d.Valid() && Terminated(d.g, d.disk, first, contents) && slot >= 1
    requires |contents| < 0x1_0000_0000 && |contents| % (d.g.ClusterBytes() + 1) != d.g.ClusterBytes()
    requires SlotAt(d.g, slot + Clusters(contents, d.g.ClusterBytes())) <= d.mem.Length
    modifies d`disk, d`calls, d.mem
    ensures code == if contents == [] || Fits(d.g, old(d.disk), first, contents) then 0 else -1
    ensures code == 0 ==>
              var at, kept := SlotAt(d.g, slot), Kept(contents, d.g.ClusterBytes());
              && at + |kept| <= d.mem.Length && d.mem[at..at + |kept|] == kept
              && (|contents| < d.g.ClusterBytes() ==> kept == contents)
  {
    hide Entry, Complete, GrownTo, Fits, TrailData, Kept, Turns, Times, Covers, IsTrail, Loaded;
    ghost var before := d.disk;
    ghost var ch, log;
    code, ch, log := PutData(d, contents, first);
    if code != 0 { return; }
    EmptyAlone(d.g, before, d.disk, ch);
    WrittenFollows(d.g, before, d.disk, ch, contents, first);
    KeptWholeIff(contents, d.g.ClusterBytes());
    ChainFollows(Table(d.g, d.disk), ch);
    ghost var m := d.mem[..];
    SlotFits(d.g, slot, Clusters(contents, d.g.ClusterBytes()));
    code := ReadChain(d, first, slot, ch);
    if contents == [] {
      EmptyKept(contents, d.g.ClusterBytes());
    } else {
      LoadedPrefix(d.mem[..], m, SlotAt(d.g, slot), TrailData(d.g, d.disk, ch), Kept(contents, d.g.ClusterBytes()));
    }
  }

  lemma SlotFits(g: Geometry, slot: nat, k: nat)
    ensures SlotAt(g, slot) <= SlotAt(g, slot + k)
  {
    SlotPlus(g, slot, k);
  }

  lemma ChainFollows(t: Fat, ch: seq<nat>)
    requires IsChain(t, ch)
    ensures InTable(t, ch[0]) && Follows(t, ch[0], ch) && Stop(t, ch[0], ch) >= END32
  {
  }

  /** A write of nothing claims nothing. */
  lemma EmptyAlone(g: Geometry, before: Disk, after: Disk, ch: seq<nat>)
    requires GrownTo(g, before, after, ch)
    ensures after == before ==> |ch| == 1
  {
    hide Entry, Run, GrowthSteps, IsTrail;
  }

  // ---------------------------------------------------------------------
  // By path
  // ---------------------------------------------------------------------

  /** The directory at `cluster` is in use, and the file's first cluster is not one of its clusters. */
  ghost predicate Apart(g: Geometry, disk: Disk, cluster: nat, first: nat)
    requires Sound(g, disk)
  {
    g.IsCluster(cluster) ==> Table(g, disk)[cluster] != 0 && first !in TrailOf(Table(g, disk), cluster)
  }

  /** So are all directories that a path leads through. */
  ghost predicate PathApart(g: Geometry, disk: Disk, parts: seq<seq<byte>>, cluster: nat, first: nat)
    requires Sound(g, disk) && |parts| > 0 && Short(parts)
    decreases |parts|
  {
    && Apart(g, disk, cluster, first)
    && var r := LookupFrom(g, disk, cluster, parts[0]);
       |parts| > 1 && r.Found? ==> PathApart(g, disk, parts[1..], ClusterOf(r.entry), first)
  }

  /** Clusters on a trail of a forest are in use when its first one is. */
  lemma TrailInUse(t: Fat, tr: seq<nat>, i: nat)
    requires Forest(t) && IsTrail(t, tr) && t[tr[0]] != 0 && i < |tr|
    ensures t[tr[i]] != 0
  {
    assert Settled(t, tr[0]);
    if t[tr[0]] == BAD32 {
      TrailUnique(t, tr, [tr[0]]);
    } else {
      var ch := ChainOf(t, tr[0]);
      TrailUnique(t, tr, ch);
      OnChain(t, ch, tr[i]);
    }
  }

  /** The write touches no cluster of a directory that is apart from the file. */
  lemma TrailUntouched(g: Geometry, before: Disk, after: Disk, ch: seq<nat>, tr: seq<nat>)
    requires GrownTo(g, before, after, ch) && Forest(Table(g, before))
    requires IsTrail(Table(g, before), tr) && Table(g, before)[tr[0]] != 0 && ch[0] !in tr
    ensures forall i :: 0 <= i < |tr| ==> tr[i] !in ch
    ensures IsTrail(Table(g, after), tr) && Table(g, after)[Last(tr)] == Table(g, before)[Last(tr)]
  {
    hide Entry, Run, GrowthSteps, Forest;
    var t, u := Table(g, before), Table(g, after);
    forall i | 0 <= i < |tr|
      ensures tr[i] !in ch && u[tr[i]] == t[tr[i]]
    {
      TrailInUse(t, tr, i);
      assert tr[i] in tr;
    }
  }

  lemma {:induction false} ReadableWithin(g: Geometry, sectors: nat, tr: seq<nat>)
    ensures Readable(g, sectors, tr) <= tr
    decreases |tr|
  {
    if |tr| > 0 && g.OnDisk(sectors, tr[0]) {
      ReadableWithin(g, sectors, tr[1..]);
      assert tr == [tr[0]] + tr[1..];
    }
  }

  lemma LookupUntouched(g: Geometry, before: Disk, after: Disk, ch: seq<nat>, tr: seq<nat>, name: seq<byte>)
    requires GrownTo(g, before, after, ch) && Forest(Table(g, before)) && |name| <= 12
    requires IsTrail(Table(g, before), tr) && Table(g, before)[tr[0]] != 0 && ch[0] !in tr
    ensures IsTrail(Table(g, after), tr) && LookupAlong(g, after, tr, name) == LookupAlong(g, before, tr, name)
  {
    TrailUntouched(g, before, after, ch, tr);
    hide Entry, ClusterData, Forest, IsTrail, GrewChain, Answer, Normal;
    var p := Readable(g, |before|, tr);
    ReadableWithin(g, |before|, tr);
    forall i | 0 <= i < |p|
      ensures ClusterData(g, before, p[i]) == ClusterData(g, after, p[i])
    {
      assert p[i] == tr[i];
      assert SameData(g, before, after, p[i]);
    }
    TrailDataFrame(g, before, after, p);
  }

  /** A lookup in a directory apart from the file answers as before the write. */
  lemma LookupKept(g: Geometry, before: Disk, after: Disk, ch: seq<nat>, cluster: nat, name: seq<byte>)
    requires GrownTo(g, before, after, ch) && Forest(Table(g, before)) && |name| <= 12
    requires Sound(g, before) && Sound(g, after) && Apart(g, before, cluster, ch[0])
    ensures LookupFrom(g, after, cluster, name) == LookupFrom(g, before, cluster, name)
  {
    hide Entry, LookupAlong, GrownTo, Forest, IsTrail;
    if g.IsCluster(cluster) {
      var tr := TrailOf(Table(g, before), cluster);
      LookupUntouched(g, before, after, ch, tr, name);
      TrailUnique(Table(g, after), tr, TrailOf(Table(g, after), cluster));
    }
  }

  /** Every path through directories apart from the file leads where it led before. */
  lemma {:induction false} ResolveKept(g: Geometry, before: Disk, after: Disk, ch: seq<nat>, parts: seq<seq<byte>>,
                                       cluster: nat)
    requires GrownTo(g, before, after, ch) && Forest(Table(g, before))
    requires Sound(g, before) && Sound(g, after)
    requires |parts| > 0 && Short(parts) && PathApart(g, before, parts, cluster, ch[0])
    ensures Resolve(g, after, parts, cluster) == Resolve(g, before, parts, cluster)
    decreases |parts|
  {
    hide LookupFrom, GrownTo, Forest, Acyclic;
    LookupKept(g, before, after, ch, cluster, parts[0]);
    var r := LookupFrom(g, before, cluster, parts[0]);
    if |parts| > 1 && r.Found? { ResolveKept(g, before, after, ch, parts[1..], ClusterOf(r.entry)); }
  }

  /** The chain of an entry that names the first cluster is the written one. */
  lemma WrittenTrail(g: Geometry, disk: Disk, ch: seq<nat>, e: seq<byte>)
    requires Sound(g, disk) && |e| == 32 && IsChain(Table(g, disk), ch) && ClusterOf(e) == ch[0]
    ensures Signed(ClusterOf(e)) == ch[0] && FileTrail(g, disk, e) == ch
    ensures Stop(Table(g, disk), ch[0], ch) >= END32
  {
    hide Entry;
    TrailUnique(Table(g, disk), ch, FileTrail(g, disk, e));
  }

  /** A path leads to a file whose chain is `ch`, and the driver accepts to load it at the slot. */
  ghost predicate LeadsToFile(g: Geometry, disk: Disk, path: seq<byte>, slot: nat, ch: seq<nat>)
    requires Sound(g, disk) && 3 <= |path| && Short(Components(path[3..]))
  {
    var r := Resolve(g, disk, Components(path[3..]), g.root);
    && r.Found? && !IsDirectory(r.entry) && !Refused(g, slot, r.entry)
    && IsChain(Table(g, disk), ch) && ClusterOf(r.entry) == ch[0]
  }

  /** getFile for such a file: the memory holds what its chain starts with. */
  method GetStored(d: Driver, path: seq<byte>, slot: nat, ghost ch: seq<nat>, ghost front: seq<byte>)
    returns (code: int, at: nat)
    requires d.Valid() && Sound(d.g, d.disk)
    requires 3 <= |path| < 0x1_0000 && Short(Components(path[3..])) && LeadsToFile(d.g, d.disk, path, slot, ch)
    requires front == [] || (AllOnDisk(d.g, |d.disk|, ch) && front <= TrailData(d.g, d.disk, ch))
    requires SlotAt(d.g, slot + |ch|) <= d.mem.Length
    modifies d.mem
    ensures code == 0 && at == SlotAt(d.g, slot)
    ensures at + |front| <= d.mem.Length && d.mem[at..at + |front|] == front
  {
    hide Entry, TrailData, Times, IsTrail, Resolve, Components, Stop, Acyclic, Short, ClusterOf, Seen;
    ghost var r := Resolve(d.g, d.disk, Components(path[3..]), d.g.root);
    WrittenTrail(d.g, d.disk, ch, r.entry);
    SlotFits(d.g, slot, |ch|);
    var entry;
    code, entry, at := GetFile(d, path, slot);
    if front != [] { PrefixHeld(d.mem[..], at, TrailData(d.g, d.disk, ch), front); }
  }

  /** The write loop of putFile, then the whole of getFile: on a forest, a path that named the file
      before the write still does, and loads the kept bytes. */
  method PutThenGetFile(d: Driver, path: seq<byte>, contents: seq<byte>, first: nat, slot: nat)
    returns (code: int, at: nat)
    requires d.Valid() && Terminated(d.g, d.disk, first, contents)
    requires Sound(d.g, d.disk) && Forest(Table(d.g, d.disk))
    requires |contents| < 0x1_0000_0000 && |contents| % (d.g.ClusterBytes() + 1) != d.g.ClusterBytes()
    requires contents == [] || Fits(d.g, d.disk, first, contents)
    requires 3 <= |path| < 0x1_0000 && Short(Components(path[3..]))
    requires PathApart(d.g, d.disk, Components(path[3..]), d.g.root, first)
    requires var r := Resolve(d.g, d.disk, Components(path[3..]), d.g.root);
             r.Found? && !IsDirectory(r.entry) && !Refused(d.g, slot, r.entry) && ClusterOf(r.entry) == first
    requires SlotAt(d.g, slot + Clusters(contents, d.g.ClusterBytes())) <= d.mem.Length
    modifies d`disk, d`calls, d.mem
    ensures code == 0 && at == SlotAt(d.g, slot)
    ensures var kept := Kept(contents, d.g.ClusterBytes());
            && at + |kept| <= d.mem.Length && d.mem[at..at + |kept|] == kept
            && (|contents| < d.g.ClusterBytes() ==> kept == contents)
    ensures Forest(Table(d.g, d.disk))
  {
    hide Entry, Complete, GrownTo, Fits, TrailData, Kept, Turns, Times, Covers, IsTrail, Resolve, Components,
         PathApart, Forest, Acyclic, Short, Clusters, ClusterOf, OnlyGrew, InUse, Holds, Joined, SlotAt;
    ghost var before, parts := d.disk, Components(path[3..]);
    ghost var ch, log;
    code, ch, log := PutData(d, contents, first);
    TerminatedInUse(d.g, before, first, contents);
    EmptyAlone(d.g, before, d.disk, ch);
    WrittenFollows(d.g, before, d.disk, ch, contents, first);
    PutKeepsForest(d.g, before, d.disk, ch);
    ResolveKept(d.g, before, d.disk, ch, parts, d.g.root);
    KeptWholeIff(contents, d.g.ClusterBytes());
    EmptyKept(contents, d.g.ClusterBytes());
    code, at := GetStored(d, path, slot, ch, Kept(contents, d.g.ClusterBytes()));
  }

  lemma TerminatedInUse(g: Geometry, disk: Disk, first: nat, contents: seq<byte>)
    requires Terminated(g, disk, first, contents)
    ensures InUse(g, disk, first) && g.Valid() && g.fatType == 32
  {
  }

  lemma EmptyKept(contents: seq<byte>, n: nat)
    ensures contents == [] ==> Kept(contents, n) == []
  {
  }

  lemma PrefixHeld(m: seq<byte>, at: nat, data: seq<byte>, front: seq<byte>)
    requires at + |data| <= |m| && m[at..at + |data|] == data && front <= data
    ensures m[at..at + |front|] == front
  {
    assert m[at..at + |front|] == m[at..at + |data|][..|front|];
  }
}
