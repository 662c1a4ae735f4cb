/** putFile as a whole: find the directory, refuse a name that is there, add the entry, find it again, and
    write the data where it says. */
module Storing {
  import opened Arith
  import opened Bytes
  import opened Volume
  import opened Chains
  import opened Driver
  import opened Names
  import opened Directory
  import opened Files
  import opened Writing
  import opened RoundTrip
  import opened Adding

  /** The path of the root directory. */
  const ROOT_PATH: seq<byte> := [0x43, 0x3A, 0x5C]

  // ---------------------------------------------------------------------
  // Finding the new entry again, over the whole directory
  // ---------------------------------------------------------------------

  ghost function ScanOf(g: Geometry, disk: Disk, c: nat, name: seq<byte>): Outcome
    requires g.Valid() && g.OnDisk(|disk|, c) && |name| <= 12
  {
    Scan(ClusterData(g, disk, c), Normal(name), 0)
  }

  /** A cluster without a free slot has no end marker. */
  lemma {:induction false} FullNeverEnds(data: seq<byte>, name: seq<byte>, n: nat, k: nat)
    requires |data| == 32 * n && k <= n && |name| == 11 && FirstSlot(data, n, n)
    ensures Scan(data, name, k) != EndMark
    decreases n - k
  {
    if k < n {
      assert !FreeSlot(data, k);
      FullNeverEnds(data, name, n, k + 1);
    }
  }

  /** All clusters of the path but its last are passed by the scan. */
  ghost predicate PassesFront(g: Geometry, disk: Disk, path: seq<nat>, name: seq<byte>)
    requires g.Valid() && AllOnDisk(g, |disk|, path) && |name| <= 12
  {
    forall k: nat :: k + 1 < |path| ==> ScanOf(g, disk, path[k], name) == RanOff
  }

  lemma PassesFrontStep(g: Geometry, disk: Disk, path: seq<nat>, name: seq<byte>)
    requires g.Valid() && AllOnDisk(g, |disk|, path) && |name| <= 12 && |path| > 1
    ensures AllOnDisk(g, |disk|, path[1..])
    ensures PassesFront(g, disk, path, name) <==>
              ScanOf(g, disk, path[0], name) == RanOff && PassesFront(g, disk, path[1..], name)
  {
    hide ScanOf;
    var rest := path[1..];
    assert forall k: nat :: k < |rest| ==> rest[k] == path[k + 1];
    if ScanOf(g, disk, path[0], name) == RanOff && PassesFront(g, disk, rest, name) {
      forall k: nat | k + 1 < |path| ensures ScanOf(g, disk, path[k], name) == RanOff {
        if k > 0 { assert ScanOf(g, disk, rest[k - 1], name) == RanOff; }
      }
    }
  }

  lemma AnswerAt(data: seq<byte>, name: seq<byte>, ended: bool, i: nat)
    requires |name| == 11
    ensures var r := Answer(data, name, ended);
            (r.Found? && r.index == i) <==> Scan(data, name, 0) == Hit(i)
    ensures Scan(data, name, 0) == Hit(i) ==>
              32 * i + 32 <= |data| && Answer(data, name, ended) == Found(EntryAt(data, i), i)
  {
  }

  /** A lookup along a directory answers slot `i` of a cluster on it exactly when it passes the clusters
      before and the scan of that cluster answers it. */
  lemma {:induction false} LookupOnPath(g: Geometry, disk: Disk, tr: seq<nat>, path: seq<nat>, name: seq<byte>, i: nat)
    requires g.Valid() && |name| <= 12 && IsTrail(Table(g, disk), tr)
    requires 0 < |path| && path <= tr && AllOnDisk(g, |disk|, path) && i < EntriesPerCluster(g)
    requires forall k: nat :: k + 1 < |path| ==> ScanOf(g, disk, path[k], name) != EndMark
    ensures var r := LookupAlong(g, disk, tr, name);
            && ((r.Found? && r.index == Times(|path| - 1, EntriesPerCluster(g)) + i) <==>
                  PassesFront(g, disk, path, name) && ScanOf(g, disk, Last(path), name) == Hit(i))
            && (PassesFront(g, disk, path, name) && ScanOf(g, disk, Last(path), name) == Hit(i) ==>
                  r.entry == EntryAt(ClusterData(g, disk, Last(path)), i))
    decreases |path|
  {
    hide Entry, IsTrail, LookupAlong, ClusterData, Normal, Answer, Scan, PassesFront, EntryAt, EntriesPerCluster;
    assert tr[0] == path[0];
    LookupStep(g, disk, tr, name);
    if |path| == 1 {
      OnlyOne(g, disk, path, name);
      FirstCluster(g, disk, tr, name, i);
    } else {
      var rest := path[1..];
      PassesFrontStep(g, disk, path, name);
      assert rest <= tr[1..] && Last(rest) == Last(path);
      assert Times(|path| - 1, EntriesPerCluster(g)) == EntriesPerCluster(g) + Times(|rest| - 1, EntriesPerCluster(g));
      hide Times;
      if ScanOf(g, disk, path[0], name) == RanOff {
        forall k: nat | k + 1 < |rest| ensures ScanOf(g, disk, rest[k], name) != EndMark {
          assert rest[k] == path[k + 1];
        }
        LookupOnPath(g, disk, tr[1..], rest, name, i);
        OnwardAt(LookupAlong(g, disk, tr[1..], name), EntriesPerCluster(g),
                 Times(|rest| - 1, EntriesPerCluster(g)) + i);
      } else {
        HitEarly(g, disk, tr, name);
      }
    }
  }

  lemma OnlyOne(g: Geometry, disk: Disk, path: seq<nat>, name: seq<byte>)
    requires g.Valid() && AllOnDisk(g, |disk|, path) && |name| <= 12 && |path| == 1
    ensures PassesFront(g, disk, path, name) && Times(0, EntriesPerCluster(g)) == 0
  {
  }

  lemma OnwardAt(r: Lookup, n: nat, k: nat)
    ensures var o := Onward(r, n); (o.Found? && o.index == n + k) <==> (r.Found? && r.index == k)
    ensures r.Found? ==> Onward(r, n).Found? && Onward(r, n).entry == r.entry
  {
  }

  lemma OnwardBeyond(r: Lookup, n: nat)
    ensures Onward(r, n).Found? ==> Onward(r, n).index >= n
  {
  }

  lemma ScanWithin(data: seq<byte>, name: seq<byte>, n: nat)
    requires |data| == 32 * n && |name| == 11
    ensures Scan(data, name, 0).Hit? ==> Scan(data, name, 0).index < n
  {
  }

  lemma FirstCluster(g: Geometry, disk: Disk, tr: seq<nat>, name: seq<byte>, i: nat)
    requires g.Valid() && |name| <= 12 && |tr| > 0 && IsTrail(Table(g, disk), tr)
    requires g.OnDisk(|disk|, tr[0]) && i < EntriesPerCluster(g)
    ensures var r := LookupAlong(g, disk, tr, name);
            && ((r.Found? && r.index == i) <==> ScanOf(g, disk, tr[0], name) == Hit(i))
            && (ScanOf(g, disk, tr[0], name) == Hit(i) ==> r.entry == EntryAt(ClusterData(g, disk, tr[0]), i))
  {
    hide Entry, IsTrail, LookupAlong, ClusterData, Normal, Answer, Scan, EntryAt, EntriesPerCluster;
    LookupStep(g, disk, tr, name);
    var data := ClusterData(g, disk, tr[0]);
    AnswerAt(data, Normal(name), true, i);
    AnswerAt(data, Normal(name), false, i);
    if |tr| > 1 && ScanOf(g, disk, tr[0], name) == RanOff {
      OnwardBeyond(LookupAlong(g, disk, tr[1..], name), EntriesPerCluster(g));
    }
  }

  lemma HitEarly(g: Geometry, disk: Disk, tr: seq<nat>, name: seq<byte>)
    requires g.Valid() && |name| <= 12 && |tr| > 0 && IsTrail(Table(g, disk), tr) && g.OnDisk(|disk|, tr[0])
    requires ScanOf(g, disk, tr[0], name).Hit?
    ensures var r := LookupAlong(g, disk, tr, name); r.Found? && r.index < EntriesPerCluster(g)
  {
    hide Entry, IsTrail, LookupAlong, ClusterData, Normal, Scan;
    var i := ScanOf(g, disk, tr[0], name).index;
    ScanWithin(ClusterData(g, disk, tr[0]), Normal(name), EntriesPerCluster(g));
    FirstCluster(g, disk, tr, name, i);
  }

  /** Clusters that link to each other are the beginning of the trail. */
  lemma {:induction false} LinkedIsPrefix(t: Fat, tr: seq<nat>, path: seq<nat>)
    requires IsTrail(t, tr) && |path| > 0 && tr[0] == path[0]
    requires InTable(t, Last(path))
    requires forall k: nat :: k + 1 < |path| ==> InTable(t, path[k]) && t[path[k]] == path[k + 1]
    ensures path <= tr
    decreases |path|
  {
    if |path| > 1 {
      var front := path[..|path| - 1];
      LinkedIsPrefix(t, tr, front);
      var k := |path| - 2;
      assert tr[k] == front[k] == path[k];
      TrailNext(t, tr, k);
    }
  }

  lemma TrailNext(t: Fat, tr: seq<nat>, k: nat)
    requires IsTrail(t, tr) && k < |tr| && InTable(t, t[tr[k]])
    ensures k + 1 < |tr| && tr[k + 1] == t[tr[k]]
  {
    assert tr[|tr| - 1] == Last(tr);
    if k + 1 < |tr| { Link(t, tr, k); }
  }

  /** The state between the walk and the placing, and after it. */
  ghost predicate AddedAt(g: Geometry, before: Disk, mid: Disk, path: seq<nat>, file: seq<byte>, i: nat) {
    && |file| == 32 && Accepted(file[..11])
    && Walked(g, before, mid, path) && g.OnDisk(|mid|, Last(path)) && !Full(Table(g, mid))
    && i < EntriesPerCluster(g) && FirstSlot(ClusterData(g, mid, Last(path)), EntriesPerCluster(g), i)
  }

  lemma AddedFacts(g: Geometry, before: Disk, mid: Disk, path: seq<nat>, file: seq<byte>, i: nat)
    requires AddedAt(g, before, mid, path, file, i)
    ensures Writable(g) && |mid| == |before| && |path| > 0 && Forest(Table(g, mid))
    ensures AllOnDisk(g, |mid|, path)
    ensures forall k: nat :: k + 1 < |path| ==> Table(g, mid)[path[k]] == path[k + 1]
    ensures forall k: nat :: k + 1 < |path| ==>
              && ClusterData(g, mid, path[k]) == ClusterData(g, before, path[k])
              && FirstSlot(ClusterData(g, mid, path[k]), EntriesPerCluster(g), EntriesPerCluster(g))
  {
    hide Entry, Forest, OnlyGrew, ClusterData, FirstSlot, LinksKept, Accepted;
    forall k: nat | k + 1 < |path|
      ensures g.OnDisk(|mid|, path[k]) && Table(g, mid)[path[k]] == path[k + 1]
      ensures ClusterData(g, mid, path[k]) == ClusterData(g, before, path[k])
      ensures FirstSlot(ClusterData(g, mid, path[k]), EntriesPerCluster(g), EntriesPerCluster(g))
    {
      assert PassedBy(g, before, mid, path, k);
      assert SameData(g, before, mid, path[k]);
    }
    forall k | 0 <= k < |path| ensures g.OnDisk(|mid|, path[k]) {
      if k + 1 == |path| { assert path[k] == Last(path); }
    }
  }

  /** After the placing, the path is the beginning of the directory's trail, and only its last cluster has
      changed. */
  lemma PathStays(g: Geometry, before: Disk, mid: Disk, path: seq<nat>, file: seq<byte>, i: nat, tr: seq<nat>)
    requires AddedAt(g, before, mid, path, file, i)
    requires IsTrail(Table(g, Placed(g, mid, Last(path), file, i)), tr) && tr[0] == path[0]
    ensures path <= tr && |path| > 0 && |mid| == |before| && AllOnDisk(g, |mid|, path)
    ensures forall k: nat :: k + 1 < |path| ==>
              ClusterData(g, Placed(g, mid, Last(path), file, i), path[k]) == ClusterData(g, mid, path[k])
  {
    AddedFacts(g, before, mid, path, file, i);
    hide Entry, Forest, OnlyGrew, ClusterData, FirstSlot, Placed, Walked, Accepted, FirstFreeFrom;
    var t, after := Table(g, mid), Placed(g, mid, Last(path), file, i);
    var u := Table(g, after);
    AddKeepsVolume(g, mid, Last(path), file, i);
    FirstFreeIsLeast(t, 2);
    forall k: nat | k + 1 < |path| ensures u[path[k]] == path[k + 1] { assert g.OnDisk(|mid|, path[k + 1]); }
    LinkedIsPrefix(u, tr, path);
    TrailDistinct(u, tr);
    forall k: nat | k + 1 < |path| ensures ClusterData(g, after, path[k]) == ClusterData(g, mid, path[k]) {
      assert tr[k] == path[k] && tr[|path| - 1] == Last(path);
      assert SameData(g, mid, after, path[k]);
    }
  }

  /** The slots and clusters before the new entry do not hide it. */
  ghost predicate InSight(g: Geometry, before: Disk, mid: Disk, path: seq<nat>, file: seq<byte>, i: nat)
    requires AddedAt(g, before, mid, path, file, i)
  {
    && (forall k: nat :: k + 1 < |path| ==>
          g.OnDisk(|before|, path[k]) && Scan(ClusterData(g, before, path[k]), file[..11], 0) == RanOff)
    && (forall j: nat :: j < i ==> Harmless(g, mid, Last(path), file[..11], j))
  }

  lemma ScansAgree(g: Geometry, before: Disk, mid: Disk, path: seq<nat>, file: seq<byte>, i: nat, tr: seq<nat>,
                   name: seq<byte>)
    requires AddedAt(g, before, mid, path, file, i) && |name| <= 12 && Normal(name) == file[..11]
    requires IsTrail(Table(g, Placed(g, mid, Last(path), file, i)), tr) && tr[0] == path[0]
    ensures var after := Placed(g, mid, Last(path), file, i);
            && g.Valid() && |path| > 0 && AllOnDisk(g, |after|, path)
            && (forall k: nat :: k + 1 < |path| ==> ScanOf(g, after, path[k], name) != EndMark)
            && (PassesFront(g, after, path, name) && ScanOf(g, after, Last(path), name) == Hit(i) <==>
                  InSight(g, before, mid, path, file, i))
  {
    PathStays(g, before, mid, path, file, i, tr);
    AddedFacts(g, before, mid, path, file, i);
    FoundAgainIff(g, mid, Last(path), file, i);
    hide Entry, Forest, OnlyGrew, ClusterData, Placed, Walked, Accepted, FirstFreeFrom, Normal, Scan, Harmless, Table,
         FirstSlot, IsTrail;
    var after := Placed(g, mid, Last(path), file, i);
    forall k: nat | k + 1 < |path|
      ensures ScanOf(g, after, path[k], name) != EndMark
      ensures g.OnDisk(|before|, path[k])
      ensures ScanOf(g, after, path[k], name) == Scan(ClusterData(g, before, path[k]), file[..11], 0)
    {
      FullNeverEnds(ClusterData(g, mid, path[k]), file[..11], EntriesPerCluster(g), 0);
    }
  }

  /** putFile's second search answers the new entry exactly when nothing hides it: no cluster that was
      passed holds the name, and all slots before it in its cluster are harmless. */
  lemma FoundAgainInDirectoryIff(g: Geometry, before: Disk, mid: Disk, path: seq<nat>, file: seq<byte>, i: nat,
                                 name: seq<byte>)
    requires AddedAt(g, before, mid, path, file, i) && |name| <= 12 && Normal(name) == file[..11]
    requires Sound(g, Placed(g, mid, Last(path), file, i))
    ensures var r := LookupFrom(g, Placed(g, mid, Last(path), file, i), path[0], name);
            && (r.Found? && r.index == Times(|path| - 1, EntriesPerCluster(g)) + i <==>
                  InSight(g, before, mid, path, file, i))
            && (InSight(g, before, mid, path, file, i) ==>
                  r.Found? && r.entry == Stamped(file, FirstFreeFrom(Table(g, mid), 2)))
  {
    hide Entry, Forest, OnlyGrew, ClusterData, Placed, Walked, Accepted, FirstFreeFrom, Normal, Scan, Table,
         FirstSlot, IsTrail, LookupAlong, InSight, Acyclic, PassesFront, ScanOf, EntryAt, EntriesPerCluster, Times;
    AddedFacts(g, before, mid, path, file, i);
    var after := Placed(g, mid, Last(path), file, i);
    assert g.OnDisk(|mid|, path[0]);
    var tr := TrailOf(Table(g, after), path[0]);
    ScansAgree(g, before, mid, path, file, i, tr, name);
    PathStays(g, before, mid, path, file, i, tr);
    LookupOnPath(g, after, tr, path, name, i);
    PlacedEntry(g, mid, Last(path), file, i, i);
  }

  // ---------------------------------------------------------------------
  // putFile
  // ---------------------------------------------------------------------

  /** A lookup of a name as convertFromFATFormat shows it, in a buffer that held `output` before. */
  ghost function LookupShown(g: Geometry, disk: Disk, cluster: nat, name: seq<byte>, output: seq<byte>): (r: Lookup)
    requires Sound(g, disk) && |name| == 11 && Accepted(name) && |output| == 13
    ensures r.Found? ==> |r.entry| == 32
  {
    ShownString(name, output);
    LookupFrom(g, disk, cluster, CString(Shown(name, output)))
  }

  /** Convert the name and search for it. */
  method SearchShown(d: Driver, cluster: nat, name: seq<byte>, output: seq<byte>) returns (code: int, entry: seq<byte>)
    requires d.Valid() && Sound(d.g, d.disk) && |name| == 11 && Accepted(name) && |output| == 13
    modifies d.mem
    ensures var r := LookupShown(d.g, d.disk, cluster, name, output);
            code == Code(r) && (r.Found? ==> entry == r.entry)
  {
    hide LookupFrom, Acyclic, Shown, Accepted, CString;
    ShownString(name, output);
    var buffer := new byte[13](k requires 0 <= k < 13 => output[k]);
    assert buffer[..] == output;
    ConvertFromFat(name, buffer);
    code, entry := Search(d, CString(buffer[..]), cluster);
  }

  /** The directory a path names: its cluster, and whether it is one. */
  datatype Place = Place(cluster: nat, directory: bool)

  ghost predicate Reachable(path: seq<byte>) {
    3 <= |path| < 0x1_0000 && Short(Components(path[3..]))
  }

  /** The way putFile goes: the clusters passed and the last one reached, the disk then, the slot, the disk
      with the entry, and the chain written. */
  datatype Way = Way(path: seq<nat>, mid: Disk, slot: nat, placed: Disk, chain: seq<nat>)

  /** What the write loop does with the cluster it starts at. */
  ghost predicate Wrote(g: Geometry, before: Disk, after: Disk, first: nat, contents: seq<byte>, code: int,
                        ch: seq<nat>)
  {
    && g.Valid() && |after| == |before| && code in {0, -1}
    && (contents == [] ==> code == 0 && after == before)
    && (contents != [] && !g.OnDisk(|before|, first) ==> code == -1 && after == before)
    && (InUse(g, before, first) ==>
          && GrownTo(g, before, after, ch) && |ch| > 0 && ch[0] == first
          && code == (if contents == [] || Fits(g, before, first, contents) then 0 else -1)
          && (contents != [] && code == 0 ==> Complete(g, before, after, ch, contents)))
  }

  /** The part after the directory has been found, with every return code. */
  ghost predicate Put(g: Geometry, before: Disk, after: Disk, at: Place, contents: seq<byte>, file: seq<byte>,
                      outputs: (seq<byte>, seq<byte>), code: int, w: Way)
    requires Sound(g, before) && |file| == 32 && Accepted(file[..11]) && |outputs.0| == 13 && |outputs.1| == 13
  {
    match LookupShown(g, before, at.cluster, file[..11], outputs.0)
    case Broken => code == -1 && after == before
    case Found(_, _) => code == -3 && after == before
    case Missing =>
      if !at.directory then code == -2 && after == before
      else
        && |w.path| > 0 && w.path[0] == at.cluster && Walked(g, before, w.mid, w.path)
        && if Full(Table(g, w.mid)) || !g.OnDisk(|w.mid|, Last(w.path)) then code == -1 && after == w.mid
           else
             && AddedAt(g, before, w.mid, w.path, file, w.slot)
             && w.placed == Placed(g, w.mid, Last(w.path), file, w.slot) && Sound(g, w.placed)
             && match LookupShown(g, w.placed, at.cluster, file[..11], outputs.1)
                case Missing => code == -2 && after == w.placed
                case Broken => code == -1 && after == w.placed
                case Found(e, _) => Wrote(g, w.placed, after, ClusterOf(e), contents, code, w.chain)
  }

  lemma AddedIs(g: Geometry, before: Disk, mid: Disk, after: Disk, path: seq<nat>, file: seq<byte>, code: int, i: nat)
    requires |path| > 0 && Walked(g, before, mid, path) && |file| == 32 && Accepted(file[..11])
    requires g.Valid() && g.fatType == 32 && Added(g, mid, after, Last(path), file, code, i)
    ensures if Full(Table(g, mid)) || !g.OnDisk(|mid|, Last(path)) then code == -1 && after == mid
            else code == 0 && AddedAt(g, before, mid, path, file, i) && after == Placed(g, mid, Last(path), file, i)
  {
    hide Walked, Placed, Accepted, ClusterData, Table, FirstSlot;
  }

  lemma PlacedForest(g: Geometry, before: Disk, mid: Disk, path: seq<nat>, file: seq<byte>, i: nat)
    requires AddedAt(g, before, mid, path, file, i)
    ensures var after := Placed(g, mid, Last(path), file, i); Forest(Table(g, after)) && Sound(g, after)
  {
    hide Entry, Forest, OnlyGrew, ClusterData, Placed, Accepted, FirstFreeFrom, FirstSlot, Acyclic;
    AddKeepsVolume(g, mid, Last(path), file, i);
    ForestIsSound(g, Placed(g, mid, Last(path), file, i));
  }

  /** putFile once it knows the directory. */
  method PutInto(d: Driver, at: Place, contents: seq<byte>, file: seq<byte>, outputs: (seq<byte>, seq<byte>))
    returns (code: int, ghost w: Way)
    requires d.Valid() && Writable(d.g) && Forest(Table(d.g, d.disk)) && Sound(d.g, d.disk)
    requires |file| == 32 && Accepted(file[..11]) && |outputs.0| == 13 && |outputs.1| == 13
    requires |contents| < 0x1_0000_0000 && |contents| % (d.g.ClusterBytes() + 1) != d.g.ClusterBytes()
    modifies d`disk, d`calls, d.mem
    ensures d.Valid() && |d.disk| == |old(d.disk)|
    ensures Put(d.g, old(d.disk), d.disk, at, contents, file, outputs, code, w)
  {
    hide Entry, Forest, OnlyGrew, Placed, Walked, Added, AddedAt, LookupShown, Acyclic, Accepted, Table, ClusterOf,
         Wrote, FirstFreeFrom, Turns, Covers;
    ghost var before := d.disk;
    w := Way([], before, 0, before, []);
    var entry;
    code, entry := SearchShown(d, at.cluster, file[..11], outputs.0);
    if code == -1 { return -1, w; }
    if code != -2 { return -3, w; }
    if !at.directory { return -2, w; }
    ghost var path, mid, i;
    code, path, mid, i := DirectoryAdd(d, at.cluster, file);
    w := Way(path, mid, i, d.disk, []);
    AddedIs(d.g, before, mid, d.disk, path, file, code, i);
    if code != 0 { return -1, w; }
    PlacedForest(d.g, before, mid, path, file, i);
    code, entry := SearchShown(d, at.cluster, file[..11], outputs.1);
    if code == -2 { return -2, w; }
    if code != 0 { return -1, w; }
    ghost var placed := d.disk;
    ghost var ch, log;
    code, ch, log := PutData(d, contents, ClusterOf(entry));
    w := w.(chain := ch);
    assert Wrote(d.g, placed, d.disk, ClusterOf(entry), contents, code, ch) by {
      WroteIs(d.g, placed, d.disk, ClusterOf(entry), contents, code, ch);
    }
  }

  lemma WroteIs(g: Geometry, before: Disk, after: Disk, first: nat, contents: seq<byte>, code: int, ch: seq<nat>)
    requires g.Valid() && |after| == |before| && code in {0, -1}
    requires contents == [] ==> code == 0 && after == before
    requires contents != [] && !g.OnDisk(|before|, first) ==> code == -1 && after == before
    requires InUse(g, before, first) ==>
               && GrownTo(g, before, after, ch) && |ch| > 0 && ch[0] == first
               && code == (if contents == [] || Fits(g, before, first, contents) then 0 else -1)
               && (contents != [] && code == 0 ==> Complete(g, before, after, ch, contents))
    ensures Wrote(g, before, after, first, contents, code, ch)
  {
  }

  /** putFile. `outputs` is what its two name buffers hold before they are filled. */
  method PutFile(d: Driver, path: seq<byte>, contents: seq<byte>, file: seq<byte>, outputs: (seq<byte>, seq<byte>))
    returns (code: int, ghost w: Way)
    requires d.Valid() && Writable(d.g) && Forest(Table(d.g, d.disk)) && Sound(d.g, d.disk)
    requires Reachable(path) && |file| == 32 && FileSize(file) == |contents|
    requires |outputs.0| == 13 && |outputs.1| == 13
    requires |contents| % (d.g.ClusterBytes() + 1) != d.g.ClusterBytes()
    modifies d`disk, d`calls, d.mem
    ensures d.Valid() && |d.disk| == |old(d.disk)|
    ensures if !Accepted(file[..11]) then code == -2 && d.disk == old(d.disk)
            else if path == ROOT_PATH then
              Put(d.g, old(d.disk), d.disk, Place(d.g.root, true), contents, file, outputs, code, w)
            else
              match Resolve(d.g, old(d.disk), Components(path[3..]), d.g.root)
              case Missing => code == -2 && d.disk == old(d.disk)
              case Broken => code == -1 && d.disk == old(d.disk)
              case Found(e, _) =>
                Put(d.g, old(d.disk), d.disk, Place(ClusterOf(e), IsDirectory(e)), contents, file, outputs, code, w)
  {
    hide Entry, Forest, Acyclic, Resolve, Components, Put, ClusterOf, IsDirectory, Accepted, Short;
    w := Way([], d.disk, 0, d.disk, []);
    var flags := TestIfFatFormat(file[..11]);
    assert file[..11][..11] == file[..11];
    if flags != 0 { return -2, w; }
    var at := Place(d.g.root, true);
    if path != ROOT_PATH {
      var entry;
      code, entry := ResolvePath(d, path);
      if code == -2 { return -2, w; }
      if code == -1 { return -1, w; }
      at := Place(ClusterOf(entry), IsDirectory(entry));
    }
    code, w := PutInto(d, at, contents, file, outputs);
  }

  // ---------------------------------------------------------------------
  // What putFile keeps
  // ---------------------------------------------------------------------

  /** The second search has hit an entry that names a free cluster. */
  ghost predicate Astray(g: Geometry, at: Place, file: seq<byte>, output: seq<byte>, w: Way)
    requires Sound(g, w.placed) && |file| == 32 && Accepted(file[..11]) && |output| == 13
  {
    var r := LookupShown(g, w.placed, at.cluster, file[..11], output);
    r.Found? && g.IsCluster(ClusterOf(r.entry)) && Table(g, w.placed)[ClusterOf(r.entry)] == 0
  }

  lemma WroteKeepsForest(g: Geometry, before: Disk, after: Disk, first: nat, contents: seq<byte>, code: int,
                         ch: seq<nat>)
    requires Writable(g) && Forest(Table(g, before)) && Wrote(g, before, after, first, contents, code, ch)
    requires g.IsCluster(first) ==> Table(g, before)[first] != 0
    ensures Forest(Table(g, after))
  {
    hide Entry, Forest, GrownTo, Complete, Fits, OnlyGrew;
    if g.IsCluster(first) {
      ForestReads(Table(g, before), first);
      PutKeepsForest(g, before, after, ch);
    }
  }

  /** Whatever putFile answers, it leaves a forest, unless its second search has gone astray. */
  lemma PutFileKeepsForest(g: Geometry, before: Disk, after: Disk, at: Place, contents: seq<byte>, file: seq<byte>,
                           outputs: (seq<byte>, seq<byte>), code: int, w: Way)
    requires Writable(g) && Forest(Table(g, before)) && Sound(g, before)
    requires |file| == 32 && Accepted(file[..11]) && |outputs.0| == 13 && |outputs.1| == 13
    requires Put(g, before, after, at, contents, file, outputs, code, w)
    ensures Forest(Table(g, after)) || (Sound(g, w.placed) && Astray(g, at, file, outputs.1, w))
  {
    hide Entry, Forest, OnlyGrew, Placed, AddedAt, LookupShown, Acyclic, Accepted, ClusterOf, Wrote, FirstFreeFrom;
    if after != before {
      WalkedForest(g, before, w.mid, w.path);
      if !Full(Table(g, w.mid)) && g.OnDisk(|w.mid|, Last(w.path)) {
        PlacedForest(g, before, w.mid, w.path, file, w.slot);
        var r := LookupShown(g, w.placed, at.cluster, file[..11], outputs.1);
        if r.Found? && !Astray(g, at, file, outputs.1, w) {
          WroteKeepsForest(g, w.placed, after, ClusterOf(r.entry), contents, code, w.chain);
        }
      }
    }
  }

  lemma WalkedForest(g: Geometry, before: Disk, mid: Disk, path: seq<nat>)
    requires Walked(g, before, mid, path)
    ensures Forest(Table(g, mid))
  {
  }

  /** The name as shown is the name again. */
  ghost predicate ShownRight(name: seq<byte>, output: seq<byte>) {
    && |name| == 11 && Accepted(name) && LeftJustified(name) && |output| == 13
    && (ExtensionLength(name) in {0, 3} || output[Skipped(name)] in {SPACE, NUL})
  }

  /** When the new entry is in sight, the second search answers it and does not go astray. */
  lemma InSightFound(g: Geometry, before: Disk, mid: Disk, path: seq<nat>, file: seq<byte>, i: nat, output: seq<byte>)
    requires AddedAt(g, before, mid, path, file, i) && ShownRight(file[..11], output)
    requires InSight(g, before, mid, path, file, i)
    ensures |path| > 0 && Sound(g, Placed(g, mid, Last(path), file, i))
    ensures var after, f := Placed(g, mid, Last(path), file, i), FirstFreeFrom(Table(g, mid), 2);
            var r := LookupShown(g, after, path[0], file[..11], output);
            && r.Found? && r.entry == Stamped(file, f)
            && (g.IsCluster(ClusterOf(r.entry)) ==> Table(g, after)[ClusterOf(r.entry)] > 0)
  {
    hide Entry, Forest, OnlyGrew, Placed, Acyclic, Accepted, ClusterOf, FirstFreeFrom, ClusterData, FirstSlot,
         InSight, Shown, CString, Normal, LeftJustified, Stamped, LookupFrom, Walked;
    AddedFacts(g, before, mid, path, file, i);
    PlacedForest(g, before, mid, path, file, i);
    RoundTripIff(file[..11], output);
    FoundAgainInDirectoryIff(g, before, mid, path, file, i, CString(Shown(file[..11], output)));
    StartsInUse(g, mid, Last(path), file, i);
  }

  // ---------------------------------------------------------------------
  // Storing a file and loading it
  // ---------------------------------------------------------------------

  lemma SameNormal(g: Geometry, disk: Disk, cluster: nat, a: seq<byte>, b: seq<byte>)
    requires Sound(g, disk) && |a| <= 12 && |b| <= 12 && Normal(a) == Normal(b)
    ensures LookupFrom(g, disk, cluster, a) == LookupFrom(g, disk, cluster, b)
  {
    hide Entry, Normal, TrailData, Answer, Acyclic;
  }

  /** Names are found whatever their case, unless they could be taken for the 11 bytes of an entry. */
  lemma LookupIgnoresCase(g: Geometry, disk: Disk, cluster: nat, t: seq<byte>, s: seq<byte>)
    requires Sound(g, disk) && InLowerCase(t, s) && |s| <= 12 && (|s| < 11 || DOT in s[..11])
    ensures LookupFrom(g, disk, cluster, t) == LookupFrom(g, disk, cluster, s)
  {
    hide LookupFrom, Acyclic, Normal;
    NormalIgnoresCase(t, s);
    SameNormal(g, disk, cluster, t, s);
  }

  lemma RootReads()
    ensures ROOT_PATH == Text("C:\\")
  {
  }

  lemma SinglePart(typed: seq<byte>)
    requires |typed| <= 12 && NoNul(typed) && BACKSLASH !in typed
    ensures (ROOT_PATH + typed)[3..] == typed && Components(typed) == [typed] && Short([typed])
  {
    ComponentsAt(typed, |typed|);
  }

  /** A file of one cluster is apart from every other directory. */
  lemma AloneIsApart(g: Geometry, disk: Disk, cluster: nat, f: nat)
    requires Sound(g, disk) && IsFile(Table(g, disk), [f]) && cluster != f
    requires g.IsCluster(cluster) ==> Table(g, disk)[cluster] != 0
    ensures Apart(g, disk, cluster, f)
  {
    hide Entry, Acyclic;
    var t := Table(g, disk);
    if g.IsCluster(cluster) {
      var tr := TrailOf(t, cluster);
      forall k | 0 <= k < |tr| ensures tr[k] != f {
        if k > 0 { LinkedHasPred(t, tr, k); }
      }
    }
  }

  lemma FirstSlotUnique(data: seq<byte>, n: nat, i: nat, j: nat)
    requires 32 * n <= |data| && FirstSlot(data, n, i) && FirstSlot(data, n, j)
    ensures i == j
  {
  }

  lemma SlotOrFull(data: seq<byte>, n: nat, i: nat)
    requires 32 * n <= |data| && FirstSlot(data, n, i) && i < n
    ensures !FirstSlot(data, n, n)
  {
    assert FreeSlot(data, i);
  }

  /** A walk goes on only past a full cluster. */
  lemma WalkGoesOn(g: Geometry, before: Disk, mid: Disk, path: seq<nat>)
    requires Walked(g, before, mid, path) && g.OnDisk(|before|, path[0])
    ensures |path| > 1 ==> FirstSlot(ClusterData(g, before, path[0]), EntriesPerCluster(g), EntriesPerCluster(g))
  {
    hide Entry, Forest, OnlyGrew, ClusterData, FirstSlot, LinksKept, AllSame;
    if |path| > 1 { assert PassedBy(g, before, mid, path, 0); }
  }

  /** The directory is ready to take the file: it has a slot, what comes before the slot does not hide the
      entry, and the number of the cluster to be claimed survives being stored. */
  ghost predicate Ready(g: Geometry, disk: Disk, cluster: nat, file: seq<byte>, i: nat) {
    && Writable(g) && Forest(Table(g, disk)) && !Full(Table(g, disk))
    && g.OnDisk(|disk|, cluster) && Table(g, disk)[cluster] != 0
    && |file| == 32 && Accepted(file[..11])
    && i < EntriesPerCluster(g) && FirstSlot(ClusterData(g, disk, cluster), EntriesPerCluster(g), i)
    && (forall j: nat :: j < i ==> Harmless(g, disk, cluster, file[..11], j))
    && FirstFreeFrom(Table(g, disk), 2) % 0x1_0000 < 0x10
  }

  /** Then the walk ends where it starts, and the new entry is in sight. */
  lemma ReadyStays(g: Geometry, before: Disk, mid: Disk, path: seq<nat>, file: seq<byte>, i: nat, j: nat)
    requires |path| > 0 && Ready(g, before, path[0], file, i) && Walked(g, before, mid, path)
    ensures path == [path[0]] && mid == before
    ensures AddedAt(g, before, mid, path, file, j) ==> j == i && InSight(g, before, mid, path, file, j)
  {
    hide Entry, Forest, OnlyGrew, ClusterData, Harmless, Accepted, FirstFreeFrom, LinksKept, AllSame;
    var n := EntriesPerCluster(g);
    WalkGoesOn(g, before, mid, path);
    SlotOrFull(ClusterData(g, before, path[0]), n, i);
    if AddedAt(g, before, mid, path, file, j) { FirstSlotUnique(ClusterData(g, before, path[0]), n, i, j); }
  }

  /** What a successful putFile into such a directory has done. */
  ghost predicate Stored(g: Geometry, before: Disk, after: Disk, cluster: nat, contents: seq<byte>,
                         file: seq<byte>, i: nat, ch: seq<nat>)
    requires Ready(g, before, cluster, file, i)
  {
    var placed, f := Placed(g, before, cluster, file, i), FirstFreeFrom(Table(g, before), 2);
    && Terminated(g, placed, f, contents) && IsFile(Table(g, placed), [f]) && Forest(Table(g, placed))
    && GrownTo(g, placed, after, ch) && |ch| > 0 && ch[0] == f
    && (if contents == [] then after == placed else Complete(g, placed, after, ch, contents))
  }

  lemma PutStores(g: Geometry, before: Disk, after: Disk, cluster: nat, contents: seq<byte>, file: seq<byte>, i: nat,
                  outputs: (seq<byte>, seq<byte>), code: int, w: Way)
    requires Ready(g, before, cluster, file, i) && Sound(g, before)
    requires ShownRight(file[..11], outputs.1) && |outputs.0| == 13
    requires LookupShown(g, before, cluster, file[..11], outputs.0) == Missing
    requires Put(g, before, after, Place(cluster, true), contents, file, outputs, code, w)
    requires var f := FirstFreeFrom(Table(g, before), 2);
             contents == [] || Fits(g, Placed(g, before, cluster, file, i), f, contents)
    ensures code == 0 && Stored(g, before, after, cluster, contents, file, i, w.chain)
    ensures Sound(g, Placed(g, before, cluster, file, i))
    ensures var r := LookupShown(g, Placed(g, before, cluster, file, i), cluster, file[..11], outputs.1);
            r.Found? && r.entry == Stamped(file, FirstFreeFrom(Table(g, before), 2))
  {
    hide Entry, Forest, OnlyGrew, Placed, Acyclic, Accepted, ClusterOf, FirstFreeFrom, ClusterData, FirstSlot,
         InSight, Harmless, LeftJustified, Stamped, LookupShown, Walked, AddedAt, GrownTo, Complete, Fits, IsTrail,
         Turns;
    ReadyStays(g, before, w.mid, w.path, file, i, w.slot);
    assert Last(w.path) == cluster;
    InSightFound(g, before, w.mid, w.path, file, i, outputs.1);
    StartsInUse(g, before, cluster, file, i);
    PlacedForest(g, before, w.mid, w.path, file, i);
  }

  /** On the final disk the typed name leads to the written chain. */
  lemma StoredNamed(g: Geometry, before: Disk, after: Disk, contents: seq<byte>, file: seq<byte>, i: nat, ch: seq<nat>,
                    output: seq<byte>, typed: seq<byte>)
    requires Ready(g, before, g.root, file, i) && Stored(g, before, after, g.root, contents, file, i, ch)
    requires Sound(g, Placed(g, before, g.root, file, i)) && ShownRight(file[..11], output)
    requires var r := LookupShown(g, Placed(g, before, g.root, file, i), g.root, file[..11], output);
             r.Found? && r.entry == Stamped(file, FirstFreeFrom(Table(g, before), 2))
    requires |typed| <= 12 && NoNul(typed) && BACKSLASH !in typed && Normal(typed) == file[..11]
    ensures Sound(g, after) && Forest(Table(g, after))
    ensures var r := LookupFrom(g, after, g.root, typed);
            r.Found? && r.entry == Stamped(file, FirstFreeFrom(Table(g, before), 2)) && ClusterOf(r.entry) == ch[0]
  {
    hide Entry, Forest, OnlyGrew, Placed, Acyclic, Accepted, ClusterOf, FirstFreeFrom, ClusterData, FirstSlot,
         Harmless, LeftJustified, Stamped, GrownTo, Complete, LookupFrom, Apart, Normal, Shown, CString, Terminated;
    var placed, f := Placed(g, before, g.root, file, i), FirstFreeFrom(Table(g, before), 2);
    StartsInUse(g, before, g.root, file, i);
    AddKeepsVolume(g, before, g.root, file, i);
    FirstFreeIsLeast(Table(g, before), 2);
    RoundTripIff(file[..11], output);
    SameNormal(g, placed, g.root, typed, CString(Shown(file[..11], output)));
    AloneIsApart(g, placed, g.root, f);
    PutKeepsForest(g, placed, after, ch);
    LookupKept(g, placed, after, ch, g.root, typed);
  }

  /** putFile into the root directory, then getFile by any spelling of the name: the file is there, and the
      memory holds its kept bytes, or all of it when it is shorter than a cluster. */
  method StoreThenLoad(d: Driver, contents: seq<byte>, file: seq<byte>, outputs: (seq<byte>, seq<byte>),
                       typed: seq<byte>, slot: nat, ghost i: nat)
    returns (code: int, at: nat)
    requires d.Valid() && Sound(d.g, d.disk) && Ready(d.g, d.disk, d.g.root, file, i)
    requires |outputs.0| == 13 && |outputs.1| == 13 && ShownRight(file[..11], outputs.1)
    requires LookupShown(d.g, d.disk, d.g.root, file[..11], outputs.0) == Missing
    requires FileSize(file) == |contents| && |contents| % (d.g.ClusterBytes() + 1) != d.g.ClusterBytes()
    requires |typed| <= 12 && NoNul(typed) && BACKSLASH !in typed && Normal(typed) == file[..11]
    requires var f := FirstFreeFrom(Table(d.g, d.disk), 2);
             && (contents == [] || Fits(d.g, Placed(d.g, d.disk, d.g.root, file, i), f, contents))
             && !IsDirectory(file) && !Refused(d.g, slot, Stamped(file, f))
    requires SlotAt(d.g, slot + Clusters(contents, d.g.ClusterBytes())) <= d.mem.Length
    modifies d`disk, d`calls, d.mem
    ensures code == 0 && at == SlotAt(d.g, slot) && Forest(Table(d.g, d.disk))
    ensures var kept := Kept(contents, d.g.ClusterBytes());
            && at + |kept| <= d.mem.Length && d.mem[at..at + |kept|] == kept
            && (|contents| < d.g.ClusterBytes() ==> kept == contents)
  {
    hide Entry, Forest, OnlyGrew, Placed, Acyclic, Accepted, ClusterOf, FirstFreeFrom, ClusterData, FirstSlot,
         Harmless, Put, LeftJustified, Stamped, LookupShown, LookupFrom, Fits, Normal, Kept, Turns, IsTrail,
         TrailData, SlotAt, Clusters, Components, Short, Stored, ShownRight, Refused, Resolve, Ready;
    ghost var before := d.disk;
    ReadyFacts(d.g, before, d.g.root, file, i);
    RootReachable();
    ghost var w;
    code, w := PutFile(d, ROOT_PATH, contents, file, outputs);
    PutStores(d.g, before, d.disk, d.g.root, contents, file, i, outputs, code, w);
    StoredNamed(d.g, before, d.disk, contents, file, i, w.chain, outputs.1, typed);
    StoredKept(d.g, before, d.disk, contents, file, i, w.chain);
    SinglePart(typed);
    ResolveSingle(d.g, d.disk, typed);
    StampedStays(file, FirstFreeFrom(Table(d.g, before), 2));
    KeptWholeIff(contents, d.g.ClusterBytes());
    code, at := GetStored(d, ROOT_PATH + typed, slot, w.chain, Kept(contents, d.g.ClusterBytes()));
  }

  lemma ReadyFacts(g: Geometry, disk: Disk, cluster: nat, file: seq<byte>, i: nat)
    requires Ready(g, disk, cluster, file, i)
    ensures Writable(g) && Forest(Table(g, disk)) && |file| == 32 && Accepted(file[..11])
    ensures FirstFreeFrom(Table(g, disk), 2) < g.total < 0x1_0000_0000
  {
  }

  lemma RootReachable()
    ensures Reachable(ROOT_PATH)
  {
    assert ROOT_PATH[3..] == [];
  }

  lemma StoredKept(g: Geometry, before: Disk, after: Disk, contents: seq<byte>, file: seq<byte>, i: nat, ch: seq<nat>)
    requires Ready(g, before, g.root, file, i) && Stored(g, before, after, g.root, contents, file, i, ch)
    ensures g.Valid() && IsChain(Table(g, after), ch) && |ch| == Clusters(contents, g.ClusterBytes())
    ensures var kept := Kept(contents, g.ClusterBytes());
            kept == [] || (AllOnDisk(g, |after|, ch) && kept <= TrailData(g, after, ch))
  {
    hide Entry, Forest, Placed, GrownTo, Complete, Terminated, Clusters, Kept, TrailData, Harmless, ClusterData,
         FirstSlot, Accepted, FirstFreeFrom, IsTrail;
    var placed := Placed(g, before, g.root, file, i);
    EmptyAlone(g, placed, after, ch);
    WrittenFollows(g, placed, after, ch, contents, FirstFreeFrom(Table(g, before), 2));
    EmptyKept(contents, g.ClusterBytes());
  }

  lemma ResolveSingle(g: Geometry, disk: Disk, typed: seq<byte>)
    requires Sound(g, disk) && |typed| <= 12 && Short([typed])
    ensures Resolve(g, disk, [typed], g.root) == LookupFrom(g, disk, g.root, typed)
  {
    hide LookupFrom, Acyclic;
  }

  lemma StampedStays(file: seq<byte>, f: nat)
    requires |file| == 32 && f < 0x1_0000_0000
    ensures IsDirectory(Stamped(file, f)) <==> IsDirectory(file)
  {
    assert Stamped(file, f)[11] == file[11];
  }

  /** There are such volumes: an empty root directory is ready for any file. */
  lemma EmptyRootReady(g: Geometry, file: seq<byte>)
    requires Writable(g) && g.total >= 4 && |file| == 32 && Accepted(file[..11])
    ensures Ready(g, WithRoot(g, NO_BYTES), 2, file, 0)
  {
    hide Entry, WithRoot, ClusterData, Forest, FirstFreeFrom, Accepted, Harmless;
    RootForest(g, NO_BYTES);
    RootData(g, NO_BYTES);
    assert ClusterData(g, WithRoot(g, NO_BYTES), 2)[0] == NO_BYTES[0];
  }
}
