/** Adding a directory entry, and what becomes of the directory. */
module Adding {
  import opened Arith
  import opened Bytes
  import opened Volume
  import opened Chains
  import opened Driver
  import opened Names
  import opened Directory
  import opened Files
  import opened Writing

  const ENTRY_FREE: byte := 0xE5
  /** What CurrentDate answers. CurrentTime and CurrentTimeTenths answer 0. */
  const TODAY: nat := 0x11

  predicate FreeSlot(data: seq<byte>, i: nat)
    requires 32 * i + 32 <= |data|
  {
    data[32 * i] in {ENTRY_FREE, ENTRY_END}
  }

  /** `i` is the first slot that is free, or the number of slots. */
  ghost predicate FirstSlot(data: seq<byte>, n: nat, i: nat)
    requires 32 * n <= |data|
  {
    && i <= n && (i < n ==> FreeSlot(data, i))
    && forall j: nat :: j < i ==> !FreeSlot(data, j)
  }

  /** The entry as it is stored: name, attributes and size are the caller's. */
  function Stamped(file: seq<byte>, c: nat): (e: seq<byte>)
    requires |file| == 32 && c < 0x1_0000_0000
    ensures |e| == 32
  {
    file[..13] + [0] + ToLe16(0) + ToLe16(TODAY) + ToLe16(TODAY) + ToLe16(StoredHigh(c))
    + ToLe16(0) + ToLe16(TODAY) + ToLe16(StoredLow(c)) + file[28..]
  }

  /** What is written back: the loaded directory cluster, whose first sector the allocator has replaced
      by a sector of the FAT, with the entry in its slot. */
  function Overwritten(data: seq<byte>, fat: Sector, i: nat, e: seq<byte>): (r: seq<byte>)
    requires 512 <= |data| && |e| == 32 && 32 * i + 32 <= |data|
    ensures |r| == |data|
  {
    Patch(Patch(data, 0, fat), 32 * i, e)
  }

  /** The FAT sector that the allocator leaves at the start of the memory. */
  ghost function ClaimedSector(g: Geometry, disk: Disk): (s: Sector)
    requires g.Valid() && g.fatType == 32 && !Full(Table(g, disk))
  {
    var f := FirstFreeFrom(Table(g, disk), 2);
    ClaimReadable(g, disk);
    WriteEntry(g, disk, f, END32)[g.FatSector(f)]
  }

  lemma ClaimReadable(g: Geometry, disk: Disk)
    requires g.Valid() && g.fatType == 32 && !Full(Table(g, disk))
    ensures var f := FirstFreeFrom(Table(g, disk), 2);
            && g.IsCluster(f) && f != BAD32 && Entry(g, disk, f) == 0 && g.FatSector(f) < |disk|
  {
    FirstFreeIsLeast(Table(g, disk), 2);
  }

  /** The disk after the entry has been placed in slot `i` of a directory cluster. */
  ghost function Placed(g: Geometry, disk: Disk, cluster: nat, file: seq<byte>, i: nat): (after: Disk)
    requires g.Valid() && g.fatType == 32 && g.OnDisk(|disk|, cluster) && |file| == 32
    requires !Full(Table(g, disk)) && i < EntriesPerCluster(g)
    ensures |after| == |disk|
  {
    var f := FirstFreeFrom(Table(g, disk), 2);
    ClaimReadable(g, disk);
    WriteCluster(g, WriteEntry(g, disk, f, END32), cluster,
                 Overwritten(ClusterData(g, disk, cluster), ClaimedSector(g, disk), i, Stamped(file, f)))
  }

  // ---------------------------------------------------------------------
  // One cluster of the directory
  // ---------------------------------------------------------------------

  /** The loop that looks for a slot in the loaded cluster. */
  method FindSlot(d: Driver) returns (i: nat)
    requires d.Valid()
    ensures FirstSlot(d.mem[..d.g.ClusterBytes()], EntriesPerCluster(d.g), i)
  {
    var n := EntriesPerCluster(d.g);
    ghost var data := d.mem[..d.g.ClusterBytes()];
    i := 0;
    while i < n && d.mem[32 * i] != ENTRY_FREE && d.mem[32 * i] != ENTRY_END
      invariant i <= n && forall j: nat :: j < i ==> !FreeSlot(data, j)
    {
      assert d.mem[32 * i] == data[32 * i];
      i := i + 1;
    }
    assert i < n ==> d.mem[32 * i] == data[32 * i];
  }

  /** From the allocation on: the directory cluster is loaded, and `slot` is the slot to fill. */
  method PlaceEntry(d: Driver, cluster: nat, file: seq<byte>, slot: nat) returns (code: int)
    requires d.Valid() && d.g.fatType == 32 && |file| == 32
    requires d.g.OnDisk(|d.disk|, cluster) && slot < EntriesPerCluster(d.g)
    requires d.mem[..d.g.ClusterBytes()] == ClusterData(d.g, d.disk, cluster)
    modifies d`disk, d`calls, d.mem
    ensures d.Valid() && |d.disk| == |old(d.disk)|
    ensures code == if Full(Table(d.g, old(d.disk))) then -1 else 0
    ensures code == -1 ==> d.disk == old(d.disk)
    ensures code == 0 ==> d.disk == Placed(d.g, old(d.disk), cluster, file, slot)
  {
    hide Entry, WriteEntry, Quot, Rem, Store, Span, FirstFreeFrom, Table, Patch, Stamped, WriteCluster, ClusterData;
    var n := d.g.ClusterBytes();
    ghost var loaded, data := d.mem[..], ClusterData(d.g, d.disk, cluster);
    assert loaded[..n] == data;
    var f := d.AllocateFree();
    if f == BAD32 {
      assert Full(Table(d.g, old(d.disk))) by {
        if !Full(Table(d.g, old(d.disk))) { ClaimReadable(d.g, old(d.disk)); }
      }
      return -1;
    }
    ghost var fat := d.disk[d.g.FatSector(f)];
    FrontReplaced(loaded, d.mem[..], fat, n);
    PatchPrefix(d.mem[..], 32 * slot, Stamped(file, f), n);
    assert d.mem[..][..n] == Patch(data, 0, fat);
    d.CopyIn(Stamped(file, f), 32 * slot);
    assert d.mem[..][..n] == Overwritten(data, fat, slot, Stamped(file, f));
    assert d.mem[..n] == d.mem[..][..n];
    PatchFront(d.mem[..], d.mem[..n]);
    code := d.ClusterWrite(d.mem[..n], 0, cluster);
    assert d.mem[0..0 + n] == d.mem[..][..n];
  }

  /** directoryAdd up to the point where it needs another cluster. Its search for dots finds none,
      because testIfFATFormat has refused names with dots before. */
  method AddEntry(d: Driver, cluster: nat, file: seq<byte>) returns (code: int, i: nat, more: bool)
    requires d.Valid() && d.g.fatType == 32 && |file| == 32
    modifies d`disk, d`calls, d.mem
    ensures d.Valid() && |d.disk| == |old(d.disk)|
    ensures if !Accepted(file[..11]) || !d.g.OnDisk(|d.disk|, cluster)
            then code == -1 && !more && d.disk == old(d.disk)
            else
              && FirstSlot(ClusterData(d.g, old(d.disk), cluster), EntriesPerCluster(d.g), i)
              && i <= EntriesPerCluster(d.g) && more == (i == EntriesPerCluster(d.g))
              && (more ==> d.disk == old(d.disk))
              && (!more ==> code == if Full(Table(d.g, old(d.disk))) then -1 else 0)
              && (!more && code == -1 ==> d.disk == old(d.disk))
              && (!more && code == 0 ==> d.disk == Placed(d.g, old(d.disk), cluster, file, i))
  {
    hide Entry, WriteEntry, Quot, Rem, Store, Span, FirstFreeFrom, Table, Stamped, Placed, WriteCluster, Accepted;
    i, more := 0, false;
    var flags := TestIfFatFormat(file[..11]);
    assert file[..11][..11] == file[..11];
    if flags != 0 { return -1, i, more; }
    code := d.ClusterRead(cluster, 0);
    if code != 0 { return -1, i, more; }
    assert d.mem[..d.g.ClusterBytes()] == ClusterData(d.g, d.disk, cluster);
    i := FindSlot(d);
    if i == EntriesPerCluster(d.g) { return 0, i, true; }
    code := PlaceEntry(d, cluster, file, i);
  }

  lemma FrontReplaced(was: seq<byte>, now: seq<byte>, fat: Sector, n: nat)
    requires |was| == |now| && 512 <= n <= |was|
    requires now[..512] == fat && now[512..] == was[512..]
    ensures now == Patch(was, 0, fat) && now[..n] == Patch(was[..n], 0, fat)
  {
    assert now == now[..512] + now[512..];
    assert now[..n] == fat + was[512..n];
  }

  lemma PatchPrefix(m: seq<byte>, at: nat, t: seq<byte>, n: nat)
    requires at + |t| <= n <= |m|
    ensures Patch(m, at, t)[..n] == Patch(m[..n], at, t)
  {
  }

  // ---------------------------------------------------------------------
  // The whole directory
  // ---------------------------------------------------------------------

  /** Clusters that linked to a cluster still link to it. */
  ghost predicate LinksKept(t: Fat, u: Fat) {
    |u| == |t| && forall c: nat :: InTable(t, c) && InTable(t, t[c]) ==> u[c] == t[c]
  }

  /** Cluster `k` of the walk had no slot, and links to the next. */
  ghost predicate PassedBy(g: Geometry, before: Disk, mid: Disk, path: seq<nat>, k: nat)
    requires g.Valid() && |mid| == |before| && k + 1 < |path|
  {
    && g.OnDisk(|before|, path[k])
    && FirstSlot(ClusterData(g, before, path[k]), EntriesPerCluster(g), EntriesPerCluster(g))
    && Table(g, mid)[path[k]] == path[k + 1]
  }

  /** No cluster holds other data than before. */
  ghost predicate AllSame(g: Geometry, before: Disk, after: Disk)
    requires g.Valid() && |after| == |before|
  {
    forall c: nat {:trigger SameData(g, before, after, c)} :: g.OnDisk(|before|, c) ==> SameData(g, before, after, c)
  }

  /** The search for a slot has gone along `path`: through full clusters, from link to link. Beyond the
      end of the chain it has extended the chain, by free clusters only, and changed no data. */
  ghost predicate Walked(g: Geometry, before: Disk, mid: Disk, path: seq<nat>) {
    && Writable(g) && |mid| == |before| && |path| > 0
    && Forest(Table(g, mid)) && OnlyGrew(Table(g, before), Table(g, mid))
    && LinksKept(Table(g, before), Table(g, mid))
    && AllSame(g, before, mid) && (|path| == 1 ==> mid == before)
    && forall k: nat {:trigger PassedBy(g, before, mid, path, k)} :: k + 1 < |path| ==>
         PassedBy(g, before, mid, path, k)
  }

  lemma WalkStarts(g: Geometry, disk: Disk, cluster: nat)
    requires Writable(g) && Forest(Table(g, disk))
    ensures Walked(g, disk, disk, [cluster])
  {
    hide Entry, Forest, OnlyGrew;
    GrewReflexive(Table(g, disk));
  }

  /** Moving on to the next cluster, by a link or by an extension. */
  ghost predicate Moved(g: Geometry, before: Disk, after: Disk, cluster: nat, next: nat) {
    && Writable(g) && |after| == |before| && g.IsCluster(cluster)
    && Forest(Table(g, after)) && OnlyGrew(Table(g, before), Table(g, after))
    && LinksKept(Table(g, before), Table(g, after))
    && AllSame(g, before, after) && Table(g, after)[cluster] == next
  }

  lemma SameDataTransitive(g: Geometry, a: Disk, b: Disk, c: Disk)
    requires g.Valid() && |a| == |b| == |c| && AllSame(g, a, b) && AllSame(g, b, c)
    ensures AllSame(g, a, c)
  {
    hide ClusterData;
    forall x: nat | g.OnDisk(|a|, x) ensures SameData(g, a, c, x) {
      assert SameData(g, a, b, x) && SameData(g, b, c, x);
    }
  }

  /** A move and a walk from there are a walk, if the first cluster was full. */
  lemma WalkLonger(g: Geometry, before: Disk, disk: Disk, mid: Disk, cluster: nat, path: seq<nat>)
    requires |path| > 0 && Moved(g, before, disk, cluster, path[0]) && Walked(g, disk, mid, path)
    requires g.OnDisk(|before|, cluster)
    requires FirstSlot(ClusterData(g, before, cluster), EntriesPerCluster(g), EntriesPerCluster(g))
    ensures Walked(g, before, mid, [cluster] + path)
  {
    hide Entry, Forest, OnlyGrew, ClusterData, FirstSlot;
    GrewTransitive(Table(g, before), Table(g, disk), Table(g, mid));
    SameDataTransitive(g, before, disk, mid);
    var longer := [cluster] + path;
    assert |path| > 1 ==> PassedBy(g, disk, mid, path, 0);
    forall k: nat | k + 1 < |longer|
      ensures PassedBy(g, before, mid, longer, k)
    {
      if k > 0 {
        assert PassedBy(g, disk, mid, path, k - 1);
        assert SameData(g, before, disk, path[k - 1]);
      }
    }
  }

  /** NextOrExtend makes such a move. */
  lemma MovesOn(g: Geometry, before: Disk, after: Disk, cluster: nat)
    requires Writable(g) && Forest(Table(g, before)) && g.IsCluster(cluster) && |after| == |before|
    requires Table(g, after) == After(Table(g, before), Extend(cluster))
    requires var t, f := Table(g, before), FirstFreeFrom(Table(g, before), 2);
             after == if t[cluster] >= END32 && !Full(t)
                      then WriteEntry(g, WriteEntry(g, before, f, END32), cluster, f) else before
    requires Table(g, after)[cluster] >= 0
    ensures Moved(g, before, after, cluster, Table(g, after)[cluster])
  {
    hide Entry, WriteEntry, Forest, OnlyGrew, ClusterData, FirstFreeFrom;
    var t, f := Table(g, before), FirstFreeFrom(Table(g, before), 2);
    StepKeepsForest(t, Extend(cluster));
    if 2 <= g.total { FirstFreeIsLeast(t, 2); }
    forall c: nat | g.OnDisk(|before|, c)
      ensures SameData(g, before, after, c)
    {
      if t[cluster] >= END32 && !Full(t) { ExtendKeepsData(g, before, f, cluster, c); }
    }
  }

  /** How many links can still be followed. */
  ghost function Ahead(g: Geometry, disk: Disk, cluster: nat): nat
    requires g.Valid() && Forest(Table(g, disk))
  {
    ForestIsAcyclic(Table(g, disk));
    if g.IsCluster(cluster) then |TrailOf(Table(g, disk), cluster)| else 0
  }

  lemma AheadShrinks(g: Geometry, disk: Disk, cluster: nat)
    requires g.Valid() && Forest(Table(g, disk)) && g.IsCluster(cluster) && Table(g, disk)[cluster] >= 0
    ensures Ahead(g, disk, Table(g, disk)[cluster]) < Ahead(g, disk, cluster)
  {
    hide Entry, Forest;
    var t := Table(g, disk);
    ForestIsAcyclic(t);
    var tr := TrailOf(t, cluster);
    FirstLink(t, tr);
    if g.IsCluster(t[cluster]) {
      Link(t, tr, 0);
      TrailTail(t, tr, 1);
      TrailUnique(t, tr[1..], TrailOf(t, t[cluster]));
    }
  }

  /** A step along the directory follows a link or uses a free cluster. */
  lemma MoveShrinks(g: Geometry, before: Disk, after: Disk, cluster: nat)
    requires g.Valid() && Forest(Table(g, before)) && Forest(Table(g, after)) && g.IsCluster(cluster)
    requires Table(g, after) == After(Table(g, before), Extend(cluster)) && Table(g, after)[cluster] >= 0
    ensures var t, u := Table(g, before), Table(g, after);
            || |Free(u)| < |Free(t)|
            || (|Free(u)| == |Free(t)| && Ahead(g, after, u[cluster]) < Ahead(g, before, cluster))
  {
    hide Entry, Forest, Free;
    StepUsesOne(Table(g, before), Extend(cluster));
    if !Effective(Table(g, before), Extend(cluster)) { AheadSame(g, before, after, cluster); }
  }

  lemma AheadSame(g: Geometry, before: Disk, after: Disk, cluster: nat)
    requires g.Valid() && Forest(Table(g, before)) && Table(g, after) == Table(g, before)
    requires g.IsCluster(cluster) && Table(g, after)[cluster] >= 0
    ensures Ahead(g, after, Table(g, after)[cluster]) < Ahead(g, before, cluster)
  {
    hide Entry, Forest;
    AheadShrinks(g, before, cluster);
  }

  /** On a forest no read of the FAT fails. */
  lemma ForestReads(t: Fat, c: nat)
    requires Forest(t) && InTable(t, c)
    ensures t[c] >= 0
  {
    assert Settled(t, c);
    if t[c] != 0 && t[c] != BAD32 {
      var ch := ChainOf(t, c);
      OnChain(t, ch, c);
    }
  }

  /** The outcome of directoryAdd after its walk: the entry is placed in the first free slot of the last
      cluster, or the walk has come to a cluster that cannot be read, or nothing is free. */
  ghost predicate Added(g: Geometry, mid: Disk, after: Disk, last: nat, file: seq<byte>, code: int, i: nat)
    requires g.Valid() && g.fatType == 32 && |file| == 32
  {
    if Accepted(file[..11]) && g.OnDisk(|mid|, last) && !Full(Table(g, mid)) then
      && code == 0 && i < EntriesPerCluster(g)
      && FirstSlot(ClusterData(g, mid, last), EntriesPerCluster(g), i)
      && after == Placed(g, mid, last, file, i)
    else code == -1 && after == mid
  }

  /** directoryAdd, on a forest: it goes through the directory from link to link past full clusters,
      extends it when it ends, and places the entry in the first slot it comes to. */
  method DirectoryAdd(d: Driver, cluster: nat, file: seq<byte>)
    returns (code: int, ghost path: seq<nat>, ghost mid: Disk, ghost i: nat)
    requires d.Valid() && Writable(d.g) && Forest(Table(d.g, d.disk)) && |file| == 32
    modifies d`disk, d`calls, d.mem
    ensures d.Valid() && |d.disk| == |old(d.disk)|
    ensures |path| > 0 && path[0] == cluster && Walked(d.g, old(d.disk), mid, path)
    ensures Added(d.g, mid, d.disk, Last(path), file, code, i)
    decreases |Free(Table(d.g, d.disk))|, Ahead(d.g, d.disk, cluster)
  {
    hide Entry, WriteEntry, Forest, OnlyGrew, Placed, Walked, Table, FirstSlot, Accepted, ClusterData, FirstFreeFrom,
         After, Free, Ahead, Moved;
    ghost var before := d.disk;
    WalkStarts(d.g, before, cluster);
    var slot, more;
    code, slot, more := AddEntry(d, cluster, file);
    path, mid, i := [cluster], before, slot;
    if !more { return; }
    ForestReads(Table(d.g, before), cluster);
    var next := d.NextOrExtend(cluster);
    if next == -1 { return -1, path, mid, i; }
    MovesOn(d.g, before, d.disk, cluster);
    MovedForest(d.g, before, d.disk, cluster, next);
    MoveShrinks(d.g, before, d.disk, cluster);
    ghost var disk := d.disk;
    code, path, mid, i := DirectoryAdd(d, next, file);
    WalkLonger(d.g, before, disk, mid, cluster, path);
    path := [cluster] + path;
  }

  lemma MovedForest(g: Geometry, before: Disk, after: Disk, cluster: nat, next: nat)
    requires Moved(g, before, after, cluster, next)
    ensures Forest(Table(g, after))
  {
  }

  // ---------------------------------------------------------------------
  // What becomes of the directory
  // ---------------------------------------------------------------------

  /** The new entry is in its slot, and an entry beyond the first sector is unharmed. An entry of the
      first sector becomes 32 bytes of the FAT. */
  lemma EntryBecomes(data: seq<byte>, fat: Sector, i: nat, e: seq<byte>, j: nat)
    requires 512 <= |data| && |e| == 32 && 32 * i + 32 <= |data| && 32 * j + 32 <= |data|
    ensures EntryAt(Overwritten(data, fat, i, e), j) ==
              if j == i then e else if j < 16 then fat[32 * j..32 * j + 32] else EntryAt(data, j)
  {
    hide Patch;
    var p := Patch(data, 0, fat);
    if j == i {
      SliceOfPatch(p, 32 * i, e, 32 * j);
      assert e[0..32] == e;
    } else {
      assert 32 * j + 32 <= 32 * i || 32 * i + 32 <= 32 * j;
      SliceOfPatch(p, 32 * i, e, 32 * j);
      SliceOfPatch(data, 0, fat, 32 * j);
    }
  }

  /** 32 bytes of patched memory, when they are all inside or all outside the patch. */
  lemma SliceOfPatch(s: seq<byte>, at: nat, t: seq<byte>, k: nat)
    requires at + |t| <= |s| && k + 32 <= |s|
    ensures k + 32 <= at || at + |t| <= k ==> Patch(s, at, t)[k..k + 32] == s[k..k + 32]
    ensures at <= k && k + 32 <= at + |t| ==> Patch(s, at, t)[k..k + 32] == t[k - at..k - at + 32]
  {
    var p := Patch(s, at, t);
    assert forall x :: 0 <= x < |s| ==> p[x] == if at <= x < at + |t| then t[x - at] else s[x];
  }

  /** The directory cluster on the disk that the addition leaves. */
  lemma PlacedEntry(g: Geometry, disk: Disk, cluster: nat, file: seq<byte>, i: nat, j: nat)
    requires g.Valid() && g.fatType == 32 && g.OnDisk(|disk|, cluster) && |file| == 32
    requires !Full(Table(g, disk)) && i < EntriesPerCluster(g) && j < EntriesPerCluster(g)
    ensures EntryAt(ClusterData(g, Placed(g, disk, cluster, file, i), cluster), j) ==
              if j == i then Stamped(file, FirstFreeFrom(Table(g, disk), 2))
              else if j < 16 then ClaimedSector(g, disk)[32 * j..32 * j + 32]
              else EntryAt(ClusterData(g, disk, cluster), j)
  {
    hide Overwritten, Entry, WriteEntry, FirstFreeFrom, Table, ClusterData, WriteCluster, EntryAt, Stamped,
         ClaimedSector;
    ClaimReadable(g, disk);
    var f := FirstFreeFrom(Table(g, disk), 2);
    var data, fat, e := ClusterData(g, disk, cluster), ClaimedSector(g, disk), Stamped(file, f);
    WriteClusterData(g, WriteEntry(g, disk, f, END32), cluster, Overwritten(data, fat, i, e), cluster);
    EntryBecomes(data, fat, i, e, j);
  }

  /** Every entry that was in use is still there. */
  ghost predicate EntriesSurvive(g: Geometry, before: Disk, after: Disk, cluster: nat)
    requires g.Valid() && |after| == |before| && g.OnDisk(|before|, cluster)
  {
    forall j: nat :: j < EntriesPerCluster(g) && !FreeSlot(ClusterData(g, before, cluster), j) ==>
      EntryAt(ClusterData(g, after, cluster), j) == EntryAt(ClusterData(g, before, cluster), j)
  }

  /** Entries in use survive the addition of another exactly when those of the directory's first sector
      equal the bytes at the same place of the FAT sector in which a cluster is claimed. */
  lemma EntriesSurviveIff(g: Geometry, disk: Disk, cluster: nat, file: seq<byte>, i: nat)
    requires g.Valid() && g.fatType == 32 && g.OnDisk(|disk|, cluster) && |file| == 32
    requires !Full(Table(g, disk)) && i < EntriesPerCluster(g)
    requires FirstSlot(ClusterData(g, disk, cluster), EntriesPerCluster(g), i)
    ensures var data := ClusterData(g, disk, cluster);
            EntriesSurvive(g, disk, Placed(g, disk, cluster, file, i), cluster) <==>
              forall j: nat :: j < 16 && !FreeSlot(data, j) ==>
                EntryAt(data, j) == ClaimedSector(g, disk)[32 * j..32 * j + 32]
  {
    hide Placed, ClusterData, ClaimedSector, EntryAt, Table, FirstFreeFrom, Entry, Stamped;
    var data, after := ClusterData(g, disk, cluster), Placed(g, disk, cluster, file, i);
    forall j: nat | j < EntriesPerCluster(g) && !FreeSlot(data, j)
      ensures EntryAt(ClusterData(g, after, cluster), j) ==
                if j < 16 then ClaimedSector(g, disk)[32 * j..32 * j + 32] else EntryAt(data, j)
    {
      PlacedEntry(g, disk, cluster, file, i, j);
    }
  }

  /** An entry in use is lost when the FAT entry of the claimed cluster lies over it, unless it holds the
      end marker there itself. */
  lemma ClaimDestroysEntry(g: Geometry, disk: Disk, cluster: nat, file: seq<byte>, i: nat)
    requires g.Valid() && g.fatType == 32 && g.OnDisk(|disk|, cluster) && |file| == 32
    requires !Full(Table(g, disk)) && i < EntriesPerCluster(g)
    requires FirstSlot(ClusterData(g, disk, cluster), EntriesPerCluster(g), i)
    requires var at := g.FatOffset(FirstFreeFrom(Table(g, disk), 2));
             && at + 4 <= 512 && !FreeSlot(ClusterData(g, disk, cluster), at / 32)
             && Le32(ClusterData(g, disk, cluster), at) != END32
    ensures var j := g.FatOffset(FirstFreeFrom(Table(g, disk), 2)) / 32;
            EntryAt(ClusterData(g, Placed(g, disk, cluster, file, i), cluster), j)
              != EntryAt(ClusterData(g, disk, cluster), j)
    ensures !EntriesSurvive(g, disk, Placed(g, disk, cluster, file, i), cluster)
  {
    hide Placed, ClusterData, Table, FirstFreeFrom, Entry, Stamped, WriteEntry, Rem, Quot;
    var data, fat, f := ClusterData(g, disk, cluster), ClaimedSector(g, disk), FirstFreeFrom(Table(g, disk), 2);
    var at := g.FatOffset(f);
    var j := at / 32;
    ClaimReadable(g, disk);
    EntryAligned(g, f);
    WordInEntry(at);
    PlacedEntry(g, disk, cluster, file, i, j);
    StoredEnd(g, disk, f);
    if EntryAt(data, j) == fat[32 * j..32 * j + 32] { SameWord(data, fat, j, at); }
  }

  lemma WordInEntry(at: nat)
    requires at % 4 == 0
    ensures 32 * (at / 32) <= at && at + 4 <= 32 * (at / 32) + 32
  {
  }

  lemma SameWord(a: seq<byte>, b: seq<byte>, j: nat, at: nat)
    requires 32 * j + 32 <= |a| && 32 * j + 32 <= |b| && 32 * j <= at && at + 4 <= 32 * j + 32
    requires a[32 * j..32 * j + 32] == b[32 * j..32 * j + 32]
    ensures Le32(a, at) == Le32(b, at)
  {
    var k := at - 32 * j;
    var u, v := a[32 * j..32 * j + 32], b[32 * j..32 * j + 32];
    assert u[k] == a[at] && u[k + 1] == a[at + 1] && u[k + 2] == a[at + 2] && u[k + 3] == a[at + 3];
    assert v[k] == b[at] && v[k + 1] == b[at + 1] && v[k + 2] == b[at + 2] && v[k + 3] == b[at + 3];
  }

  lemma StoredEnd(g: Geometry, disk: Disk, f: nat)
    requires g.Valid() && g.fatType == 32 && g.Visible(f) && Entry(g, disk, f) != -1
    ensures g.FatSector(f) < |disk| && g.FatOffset(f) + 4 <= 512
    ensures Le32(WriteEntry(g, disk, f, END32)[g.FatSector(f)], g.FatOffset(f)) == END32
  {
    EntryAligned(g, f);
    var s, at, b := disk[g.FatSector(f)], g.FatOffset(f), ToLe32(END32);
    var p := Patch(s, at, b);
    assert p[at + 0] == b[0] && p[at + 1] == b[1] && p[at + 2] == b[2] && p[at + 3] == b[3];
    assert Le32(p, at) == Le32(b, 0);
  }

  // ---------------------------------------------------------------------
  // What becomes of the volume, and where putFile writes
  // ---------------------------------------------------------------------

  /** The rest of the volume fares well: adding claims one cluster, keeps the forest, and changes the
      data of no cluster but the directory's. */
  lemma AddKeepsVolume(g: Geometry, disk: Disk, cluster: nat, file: seq<byte>, i: nat)
    requires Writable(g) && Forest(Table(g, disk)) && !Full(Table(g, disk))
    requires g.OnDisk(|disk|, cluster) && |file| == 32 && i < EntriesPerCluster(g)
    ensures var after := Placed(g, disk, cluster, file, i);
            && Table(g, after) == After(Table(g, disk), Claim) && Forest(Table(g, after))
            && OnlyGrew(Table(g, disk), Table(g, after))
            && forall c: nat {:trigger SameData(g, disk, after, c)} :: g.OnDisk(|disk|, c) && c != cluster ==>
                 SameData(g, disk, after, c)
  {
    hide Entry, WriteEntry, Table, WriteCluster, OnlyGrew, Forest, FirstFreeFrom, ClusterData, Overwritten,
         ClaimedSector, Stamped;
    ClaimReadable(g, disk);
    var t := Table(g, disk);
    var f := FirstFreeFrom(t, 2);
    var m := WriteEntry(g, disk, f, END32);
    var data := Overwritten(ClusterData(g, disk, cluster), ClaimedSector(g, disk), i, Stamped(file, f));
    ClaimOnDisk(g, disk);
    StepKeepsForest(t, Claim);
    WriteClusterKeepsTable(g, m, cluster, data);
    forall c: nat | g.OnDisk(|disk|, c) && c != cluster
      ensures SameData(g, disk, WriteCluster(g, m, cluster, data), c)
    {
      WriteKeepsData(g, disk, f, END32, c);
      WriteClusterData(g, m, cluster, data, c);
    }
  }

  lemma StampedCluster(file: seq<byte>, f: nat)
    requires |file| == 32 && f < 0x1_0000_0000
    ensures ClusterOf(Stamped(file, f)) == f / 0x1_0000 * 0x1_0000 + f % 0x10
  {
    var e := Stamped(file, f);
    assert e[20..22] == ToLe16(StoredHigh(f)) && e[26..28] == ToLe16(StoredLow(f));
    assert e[20] == e[20..22][0] && e[21] == e[20..22][1] && e[26] == e[26..28][0] && e[27] == e[26..28][1];
    assert Le16(e, 20) == StoredHigh(f) && Le16(e, 26) == StoredLow(f);
  }

  /** The cluster number in the stored entry is the claimed one exactly when the low half of that is below
      16. Otherwise it is lower, and names no cluster or one that is not free. */
  lemma StoresClaimedIff(g: Geometry, disk: Disk, file: seq<byte>)
    requires g.Valid() && !Full(Table(g, disk)) && |file| == 32
    ensures var f := FirstFreeFrom(Table(g, disk), 2);
            var first := ClusterOf(Stamped(file, f));
            && (first == f <==> f % 0x1_0000 < 0x10)
            && (first != f ==> first < f && (first < 2 || Table(g, disk)[first] != 0))
  {
    hide Stamped, ClusterOf, Entry;
    FirstFreeIsLeast(Table(g, disk), 2);
    StampedCluster(file, FirstFreeFrom(Table(g, disk), 2));
  }

  // ---------------------------------------------------------------------
  // Whether the new entry is found again
  // ---------------------------------------------------------------------

  /** What slot `j` holds after the addition neither ends the directory nor has the name. In the first
      sector that is a matter of the FAT. */
  ghost predicate Harmless(g: Geometry, disk: Disk, cluster: nat, name: seq<byte>, j: nat)
    requires g.Valid() && g.fatType == 32 && g.OnDisk(|disk|, cluster) && !Full(Table(g, disk))
    requires j < EntriesPerCluster(g)
  {
    if j < 16 then
      var fat := ClaimedSector(g, disk);
      fat[32 * j] != ENTRY_END && fat[32 * j..32 * j + 11] != name
    else EntryAt(ClusterData(g, disk, cluster), j)[..11] != name
  }

  lemma ViaEntry(data: seq<byte>, j: nat, name: seq<byte>)
    requires 32 * j + 32 <= |data|
    ensures Live(data, j) <==> EntryAt(data, j)[0] != ENTRY_END
    ensures Named(data, j, name) <==> EntryAt(data, j)[..11] == name
  {
    assert EntryAt(data, j)[..11] == data[32 * j..32 * j + 11];
  }

  lemma HarmlessPassed(g: Geometry, disk: Disk, cluster: nat, file: seq<byte>, i: nat, j: nat)
    requires g.Valid() && g.fatType == 32 && g.OnDisk(|disk|, cluster) && |file| == 32
    requires !Full(Table(g, disk)) && j < i < EntriesPerCluster(g)
    requires FirstSlot(ClusterData(g, disk, cluster), EntriesPerCluster(g), i)
    ensures var data := ClusterData(g, Placed(g, disk, cluster, file, i), cluster);
            Live(data, j) && !Named(data, j, file[..11]) <==> Harmless(g, disk, cluster, file[..11], j)
  {
    hide Placed, ClusterData, ClaimedSector, Table, FirstFreeFrom, Entry, Stamped, Live, Named;
    var data, after := ClusterData(g, disk, cluster), ClusterData(g, Placed(g, disk, cluster, file, i), cluster);
    var fat := ClaimedSector(g, disk);
    PlacedEntry(g, disk, cluster, file, i, j);
    ViaEntry(after, j, file[..11]);
    assert !FreeSlot(data, j);
    if j < 16 {
      assert fat[32 * j..32 * j + 32][..11] == fat[32 * j..32 * j + 11];
    } else {
      assert EntryAt(data, j)[0] == data[32 * j];
    }
  }

  lemma StampedName(file: seq<byte>, f: nat)
    requires |file| == 32 && f < 0x1_0000_0000 && Accepted(file[..11])
    ensures Stamped(file, f)[..11] == file[..11] && Stamped(file, f)[0] != ENTRY_END
    ensures Stamped(file, f)[11] == file[11] && Stamped(file, f)[28..] == file[28..]
  {
    assert Legal(file[..11][0]);
  }

  lemma NewEntryThere(g: Geometry, disk: Disk, cluster: nat, file: seq<byte>, i: nat)
    requires g.Valid() && g.fatType == 32 && g.OnDisk(|disk|, cluster) && |file| == 32 && Accepted(file[..11])
    requires !Full(Table(g, disk)) && i < EntriesPerCluster(g)
    ensures var data := ClusterData(g, Placed(g, disk, cluster, file, i), cluster);
            Live(data, i) && Named(data, i, file[..11])
  {
    hide Placed, ClusterData, Table, FirstFreeFrom, Entry, Stamped, Live, Named, Accepted;
    ClaimReadable(g, disk);
    PlacedEntry(g, disk, cluster, file, i, i);
    StampedName(file, FirstFreeFrom(Table(g, disk), 2));
    ViaEntry(ClusterData(g, Placed(g, disk, cluster, file, i), cluster), i, file[..11]);
  }

  /** The scan of the cluster for the new name answers the new entry exactly when all slots before it are
      harmless. */
  lemma FoundAgainIff(g: Geometry, disk: Disk, cluster: nat, file: seq<byte>, i: nat)
    requires g.Valid() && g.fatType == 32 && g.OnDisk(|disk|, cluster) && |file| == 32 && Accepted(file[..11])
    requires !Full(Table(g, disk)) && i < EntriesPerCluster(g)
    requires FirstSlot(ClusterData(g, disk, cluster), EntriesPerCluster(g), i)
    ensures Scan(ClusterData(g, Placed(g, disk, cluster, file, i), cluster), file[..11], 0) == Hit(i) <==>
              forall j: nat :: j < i ==> Harmless(g, disk, cluster, file[..11], j)
  {
    hide Placed, ClusterData, Table, FirstFreeFrom, Entry, Stamped, Live, Named, Accepted, Harmless, Scan, FirstSlot;
    var data, name := ClusterData(g, Placed(g, disk, cluster, file, i), cluster), file[..11];
    ScanFindsOne(data, name, 0, i);
    NewEntryThere(g, disk, cluster, file, i);
    forall j: nat | j < i
      ensures Live(data, j) && !Named(data, j, name) <==> Harmless(g, disk, cluster, name, j)
    {
      HarmlessPassed(g, disk, cluster, file, i, j);
    }
    PassedIs(data, name, i);
  }

  lemma PassedIs(data: seq<byte>, name: seq<byte>, i: nat)
    ensures Passed(data, name, 0, i) <==> forall j: nat :: j < i ==> Live(data, j) && !Named(data, j, name)
  {
    hide Live, Named;
    if Passed(data, name, 0, i) {
      forall j: nat | j < i ensures Live(data, j) && !Named(data, j, name) { PassedAt(data, name, 0, i, j); }
    }
  }

  /** When putFile finds the entry again, under the name as it shows it, the write loop starts at the new
      chain, or at a cluster in use by something else, or at a number that is refused. */
  lemma AddThenPut(g: Geometry, disk: Disk, cluster: nat, file: seq<byte>, i: nat, output: seq<byte>)
    requires Writable(g) && Forest(Table(g, disk)) && !Full(Table(g, disk))
    requires g.OnDisk(|disk|, cluster) && |file| == 32 && i < EntriesPerCluster(g)
    requires FirstSlot(ClusterData(g, disk, cluster), EntriesPerCluster(g), i)
    requires Accepted(file[..11]) && LeftJustified(file[..11]) && |output| == 13
    requires ExtensionLength(file[..11]) in {0, 3} || output[Skipped(file[..11])] in {SPACE, NUL}
    requires forall j: nat :: j < i ==> Harmless(g, disk, cluster, file[..11], j)
    ensures var f, after := FirstFreeFrom(Table(g, disk), 2), Placed(g, disk, cluster, file, i);
            var data, searched := ClusterData(g, after, cluster), CString(Shown(file[..11], output));
            && |searched| <= 12 && Scan(data, Normal(searched), 0) == Hit(i)
            && var first := ClusterOf(EntryAt(data, i));
               && (f % 0x1_0000 < 0x10 ==> InUse(g, after, first) && IsFile(Table(g, after), [first]))
               && (f % 0x1_0000 >= 0x10 && first >= 2 ==>
                     InUse(g, after, first) && Table(g, after)[first] == Table(g, disk)[first] > 0)
  {
    hide Entry, Forest, OnlyGrew, Placed, Stamped, ClusterOf, ClusterData, Harmless, Scan, Shown, CString, Normal,
         FirstSlot, Accepted, LeftJustified;
    RoundTripIff(file[..11], output);
    FoundAgainIff(g, disk, cluster, file, i);
    PlacedEntry(g, disk, cluster, file, i, i);
    StartsInUse(g, disk, cluster, file, i);
  }

  /** Where the stored number leads on the volume after the addition. */
  lemma StartsInUse(g: Geometry, disk: Disk, cluster: nat, file: seq<byte>, i: nat)
    requires Writable(g) && Forest(Table(g, disk)) && !Full(Table(g, disk))
    requires g.OnDisk(|disk|, cluster) && |file| == 32 && i < EntriesPerCluster(g)
    ensures var f, after := FirstFreeFrom(Table(g, disk), 2), Placed(g, disk, cluster, file, i);
            var first := ClusterOf(Stamped(file, f));
            && (f % 0x1_0000 < 0x10 ==> first == f && InUse(g, after, first) && IsFile(Table(g, after), [first]))
            && (f % 0x1_0000 >= 0x10 && first >= 2 ==>
                  InUse(g, after, first) && Table(g, after)[first] == Table(g, disk)[first] > 0)
  {
    hide Entry, Forest, OnlyGrew, Placed, Stamped, ClusterOf;
    var t, f := Table(g, disk), FirstFreeFrom(Table(g, disk), 2);
    AddKeepsVolume(g, disk, cluster, file, i);
    StoresClaimedIff(g, disk, file);
    FirstFreeIsLeast(t, 2);
    ClaimAddsFile(t, f, [f]);
    var first := ClusterOf(Stamped(file, f));
    if 2 <= first < g.total { ForestReads(t, first); }
  }

  // ---------------------------------------------------------------------
  // A volume on which an entry is lost
  // ---------------------------------------------------------------------

  /** Entry 2 is at its end, all others are free. */
  const ONE_CHAIN: Sector :=
    seq(512, k => if k == 8 then 0xF8 else if k in {9, 10} then 0xFF else if k == 11 then 0x0F else 0)
  /** One entry, whose name starts with an A. */
  const ONE_ENTRY: Sector := seq(512, k => if k == 0 then 0x41 else 0)
  const NO_BYTES: Sector := seq(512, _ => 0)

  /** A volume with nothing but a root directory, whose first sector is `s`. */
  function WithRoot(g: Geometry, s: Sector): (disk: Disk)
    ensures |disk| == g.firstData + g.spc
  {
    seq(g.firstData + g.spc, k => if k == g.firstFat then ONE_CHAIN else if k == g.firstData then s else NO_BYTES)
  }

  lemma RootEntry(g: Geometry, s: Sector, c: nat)
    requires Writable(g) && g.IsCluster(c)
    ensures Entry(g, WithRoot(g, s), c) == if c == 2 then END32 else 0
  {
    var disk := WithRoot(g, s);
    EntryAligned(g, c);
    EntryAligned(g, 2);
    assert g.FatSector(2) == g.firstFat && g.FatOffset(2) == 8;
    assert g.FatSector(c) < g.firstData;
    var fat, at := disk[g.FatSector(c)], g.FatOffset(c);
    if c == 2 {
      assert Le32(fat, 8) == END32;
    } else {
      EntriesApart(g, c, 2);
      assert fat[at] == 0 && fat[at + 1] == 0 && fat[at + 2] == 0 && fat[at + 3] == 0;
    }
  }

  lemma RootForest(g: Geometry, s: Sector)
    requires Writable(g) && g.total >= 4
    ensures var t := Table(g, WithRoot(g, s));
            Forest(t) && !Full(t) && FirstFreeFrom(t, 2) == 3 && t[2] == END32
  {
    hide Entry, WithRoot;
    var t := Table(g, WithRoot(g, s));
    forall c: nat | InTable(t, c) ensures t[c] == if c == 2 then END32 else 0 { RootEntry(g, s, c); }
    assert IsChain(t, [2]) && TrailFrom(t, 2, [2]);
    assert forall c: nat :: InTable(t, c) ==> Settled(t, c);
    assert FirstFreeFrom(t, 3) == 3;
  }

  lemma SpanFront(disk: Disk, sector: nat, count: nat)
    requires 0 < count && sector + count <= |disk|
    ensures Span(disk, sector, count)[..512] == disk[sector]
    decreases count
  {
    if count > 1 { SpanFront(disk, sector, count - 1); }
  }

  lemma RootData(g: Geometry, s: Sector)
    requires Writable(g) && g.total >= 4
    ensures g.OnDisk(|WithRoot(g, s)|, 2)
    ensures forall k :: 0 <= k < 512 ==> ClusterData(g, WithRoot(g, s), 2)[k] == s[k]
  {
    assert g.FatSector(2) < g.firstData;
    var disk := WithRoot(g, s);
    SpanFront(disk, g.firstData, g.spc);
    hide Span;
    var data := ClusterData(g, disk, 2);
    assert data[..512] == s;
    forall k | 0 <= k < 512 ensures data[k] == s[k] { assert data[k] == data[..512][k]; }
  }

  /** On every geometry with room for it there is a volume in good order on which adding an entry to the
      root destroys the entry that is there. */
  lemma EntryLost(g: Geometry, file: seq<byte>) returns (disk: Disk)
    requires Writable(g) && g.total >= 4 && |file| == 32
    ensures g.OnDisk(|disk|, 2) && Forest(Table(g, disk)) && !Full(Table(g, disk))
    ensures var data := ClusterData(g, disk, 2);
            && FirstSlot(data, EntriesPerCluster(g), 1) && !FreeSlot(data, 0)
            && EntryAt(ClusterData(g, Placed(g, disk, 2, file, 1), 2), 0) != EntryAt(data, 0)
  {
    disk := WithRoot(g, ONE_ENTRY);
    RootForest(g, ONE_ENTRY);
    RootData(g, ONE_ENTRY);
    assert g.FatOffset(3) == 12;
    hide WithRoot, Entry, Placed, Table, Forest, Span, ClusterData, FirstFreeFrom;
    var data := ClusterData(g, disk, 2);
    assert Le32(data, 12) == 0;
    ClaimDestroysEntry(g, disk, 2, file, 1);
  }

  lemma RootClaims(g: Geometry, s: Sector)
    requires Writable(g) && g.total >= 4
    ensures !Full(Table(g, WithRoot(g, s))) && ClaimedSector(g, WithRoot(g, s))[0] == 0
  {
    var disk := WithRoot(g, s);
    RootForest(g, s);
    RootEntry(g, s, 3);
    EntryAligned(g, 3);
    assert g.FatSector(3) == g.firstFat && g.FatOffset(3) == 12;
    assert g.FatSector(3) < g.firstData;
    assert disk[g.firstFat] == ONE_CHAIN;
    hide Entry, Table, FirstFreeFrom, WithRoot;
    assert WriteEntry(g, disk, 3, END32)[g.firstFat] == Patch(ONE_CHAIN, 12, EntryBytes(g, END32));
  }

  /** On that volume the new entry is not found again either: bytes of the FAT end the directory before
      it, and a lookup of any name answers that there is none. */
  lemma NewEntryBuried(g: Geometry, file: seq<byte>, name: seq<byte>)
    requires Writable(g) && g.total >= 4 && |file| == 32 && |name| <= 12
    ensures var disk := WithRoot(g, ONE_ENTRY);
            && g.OnDisk(|disk|, 2) && !Full(Table(g, disk))
            && var after := Placed(g, disk, 2, file, 1);
               IsTrail(Table(g, after), [2]) && LookupAlong(g, after, [2], name) == Missing
  {
    RootData(g, ONE_ENTRY);
    RootClaims(g, ONE_ENTRY);
    RootForest(g, ONE_ENTRY);
    var disk := WithRoot(g, ONE_ENTRY);
    hide Entry, WithRoot, Placed, ClusterData, Forest, OnlyGrew, ClaimedSector, Normal, FirstFreeFrom, LookupAlong;
    var after := Placed(g, disk, 2, file, 1);
    AddKeepsVolume(g, disk, 2, file, 1);
    assert Table(g, after) == Table(g, disk)[3 := END32];
    PlacedEntry(g, disk, 2, file, 1, 0);
    var data := ClusterData(g, after, 2);
    assert data[0] == EntryAt(data, 0)[0] == 0;
    assert Scan(data, Normal(name), 0) == EndMark;
    LookupStep(g, after, [2], name);
    AnswerOutcome(data, Normal(name));
  }

  // ---------------------------------------------------------------------
  // The marks of an entry
  // ---------------------------------------------------------------------

  /** A deleted entry before the first free slot makes its slot the one that is filled next, and so does an
      end marker. */
  lemma DeletedSlotIsNext(data: seq<byte>, n: nat, i: nat, k: nat)
    requires |data| == 32 * n && FirstSlot(data, n, i) && k < i
    ensures FirstSlot(Patch(data, 32 * k, [0xE5]), n, k) && FirstSlot(Patch(data, 32 * k, [0]), n, k)
  {
    forall m: byte | m in {0xE5, 0} ensures FirstSlot(Patch(data, 32 * k, [m]), n, k) {
      var d := Patch(data, 32 * k, [m]);
      forall j: nat | j < k ensures !FreeSlot(d, j) {
        assert !FreeSlot(data, j) && d[32 * j] == data[32 * j];
      }
    }
  }

  /** Any other first byte keeps the slot. */
  lemma UsedSlotIsPassed(data: seq<byte>, n: nat, i: nat, m: byte)
    requires |data| == 32 * n && FirstSlot(data, n, i) && i < n && m !in {0xE5, 0}
    ensures !FirstSlot(Patch(data, 32 * i, [m]), n, i)
  {
    assert Patch(data, 32 * i, [m])[32 * i] == m;
  }

  /** What is stored of the caller's entry, field by field: dates are set and times cleared. */
  lemma StampedFields(x: Fields, c: nat)
    requires x.Valid() && c < 0x1_0000_0000
    ensures Stamped(x.Bytes(), c) ==
              x.(tenths := 0, created := 0, createdOn := 0x11, accessedOn := 0x11, high := c / 0x1_0000, changed := 0,
                 changedOn := 0x11, low := c % 0x10).Bytes()
  {
    hide ToLe16, ToLe32, Le16, Le32;
    var s := x.Bytes();
    assert s[..13] == x.name + [x.attributes, x.reserved] && s[28..] == ToLe32(x.size);
  }
}
