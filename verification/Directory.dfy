/** Directories: 32-byte entries in the clusters of a chain, and the search through them. */
module Directory {
  import opened Arith
  import opened Bytes
  import opened Volume
  import opened Chains
  import opened Names
  import opened Driver

  const ENTRY_END: byte := 0

  predicate AllOnDisk(g: Geometry, sectors: nat, ch: seq<nat>) {
    forall i :: 0 <= i < |ch| ==> g.OnDisk(sectors, ch[i])
  }

  /** The clusters of a trail as one byte string. */
  function TrailData(g: Geometry, disk: Disk, ch: seq<nat>): (s: seq<byte>)
    requires g.Valid() && AllOnDisk(g, |disk|, ch)
  {
    if |ch| == 0 then [] else ClusterData(g, disk, ch[0]) + TrailData(g, disk, ch[1..])
  }

  /** How a scan ends: at a matching entry, at the end marker, or past the last entry. */
  datatype Outcome = Hit(index: nat) | EndMark | RanOff

  /** Linear search for an 11-byte name, from entry `k` on. */
  function Scan(data: seq<byte>, name: seq<byte>, k: nat): (r: Outcome)
    requires |name| == 11
    ensures r.Hit? ==> k <= r.index && 32 * r.index + 32 <= |data|
    decreases |data| - 32 * k
  {
    if 32 * k + 32 > |data| then RanOff
    else if data[32 * k] == ENTRY_END then EndMark
    else if data[32 * k..32 * k + 11] == name then Hit(k)
    else Scan(data, name, k + 1)
  }

  ghost predicate Live(data: seq<byte>, i: nat) {
    32 * i + 32 <= |data| && data[32 * i] != ENTRY_END
  }

  ghost predicate Named(data: seq<byte>, i: nat, name: seq<byte>) {
    32 * i + 32 <= |data| && data[32 * i..32 * i + 11] == name
  }

  /** No entry from `k` up to `i` matches or marks the end. */
  ghost predicate Passed(data: seq<byte>, name: seq<byte>, k: nat, i: nat) {
    forall j: nat {:trigger Live(data, j)} :: k <= j < i ==> Live(data, j) && !Named(data, j, name)
  }

  lemma PassedAt(data: seq<byte>, name: seq<byte>, k: nat, i: nat, j: nat)
    requires Passed(data, name, k, i) && k <= j < i
    ensures Live(data, j) && !Named(data, j, name)
  {
    hide Live, Named;
    assert Live(data, j);
  }

  lemma PassedStep(data: seq<byte>, name: seq<byte>, k: nat, i: nat)
    requires k < i
    ensures Passed(data, name, k, i) <==> Live(data, k) && !Named(data, k, name) && Passed(data, name, k + 1, i)
  {
    hide Live, Named;
    if Passed(data, name, k, i) {
      PassedAt(data, name, k, i, k);
      forall j: nat | k + 1 <= j < i ensures Live(data, j) && !Named(data, j, name) { PassedAt(data, name, k, i, j); }
    } else if Passed(data, name, k + 1, i) {
      forall j: nat | k + 1 <= j < i ensures Live(data, j) && !Named(data, j, name) {
        PassedAt(data, name, k + 1, i, j);
      }
    }
  }

  lemma {:induction false} ScanFindsOne(data: seq<byte>, name: seq<byte>, k: nat, i: nat)
    requires |name| == 11
    ensures Scan(data, name, k) == Hit(i) <==>
              k <= i && Passed(data, name, k, i) && Live(data, i) && Named(data, i, name)
    decreases |data| - 32 * k
  {
    hide Passed;
    if k < i { PassedStep(data, name, k, i); }
    if Live(data, k) && !Named(data, k, name) {
      ScanFindsOne(data, name, k + 1, i);
    }
    if k == i { PassedNothing(data, name, k); }
  }

  lemma PassedNothing(data: seq<byte>, name: seq<byte>, k: nat)
    ensures Passed(data, name, k, k)
  {
  }

  /** The scan answers the first matching entry before the first end marker, and answers none
      exactly when there is none. */
  lemma ScanFindsFirst(data: seq<byte>, name: seq<byte>)
    requires |name| == 11
    ensures forall i: nat :: Scan(data, name, 0) == Hit(i) <==>
              Passed(data, name, 0, i) && Live(data, i) && Named(data, i, name)
    ensures !Scan(data, name, 0).Hit? <==>
              forall i: nat :: !(Passed(data, name, 0, i) && Live(data, i) && Named(data, i, name))
  {
    forall i: nat
      ensures Scan(data, name, 0) == Hit(i) <==> Passed(data, name, 0, i) && Live(data, i) && Named(data, i, name)
    {
      ScanFindsOne(data, name, 0, i);
    }
  }

  function Shift(r: Outcome, n: nat): Outcome {
    if r.Hit? then Hit(r.index + n) else r
  }

  lemma {:induction false} ScanShift(a: seq<byte>, m: nat, b: seq<byte>, name: seq<byte>, k: nat)
    requires |a| == 32 * m && |name| == 11
    ensures Scan(a + b, name, m + k) == Shift(Scan(b, name, k), m)
    decreases |b| - 32 * k
  {
    if 32 * k + 32 <= |b| {
      assert (a + b)[32 * (m + k)..32 * (m + k) + 11] == b[32 * k..32 * k + 11];
      ScanShift(a, m, b, name, k + 1);
    }
  }

  /** Scanning two stretches one after the other is scanning their concatenation. */
  lemma {:induction false} ScanAppend(a: seq<byte>, m: nat, b: seq<byte>, name: seq<byte>, k: nat)
    requires |a| == 32 * m && k <= m && |name| == 11
    ensures Scan(a + b, name, k) ==
              if Scan(a, name, k) == RanOff then Shift(Scan(b, name, 0), m) else Scan(a, name, k)
    decreases m - k
  {
    if k < m {
      assert (a + b)[32 * k..32 * k + 11] == a[32 * k..32 * k + 11];
      ScanAppend(a, m, b, name, k + 1);
    } else {
      ScanShift(a, m, b, name, 0);
    }
  }

  /** strncmp: stops at a NUL in either string. */
  method Strncmp(a: seq<byte>, b: seq<byte>, n: nat) returns (r: int)
    requires n <= |a| && n <= |b|
    ensures NoNul(b[..n]) ==> (r == 0 <==> a[..n] == b[..n])
    ensures r != 0 ==> exists k: nat :: k < n && a[..k] == b[..k] && r == a[k] as int - b[k] as int
  {
    var i := 0;
    while i < n
      invariant 0 <= i <= n
      invariant a[..i] == b[..i]
    {
      if a[i] == NUL || b[i] == NUL {
        assert b[i] == b[..n][i] && a[i] == a[..n][i];
        return a[i] as int - b[i] as int;
      }
      if a[i] != b[i] {
        assert b[i] == b[..n][i] && a[i] == a[..n][i];
        return a[i] as int - b[i] as int;
      }
      i := i + 1;
    }
    return 0;
  }

  /** What a path component leads to. `Broken` is the driver's general error. */
  datatype Lookup = Found(entry: seq<byte>, index: nat) | Missing | Broken

  function EntriesPerCluster(g: Geometry): nat {
    16 * g.spc
  }

  function EntryAt(data: seq<byte>, i: nat): (e: seq<byte>)
    requires 32 * i + 32 <= |data|
    ensures |e| == 32
  {
    data[32 * i..32 * i + 32]
  }

  /** The answer for directory bytes; `ended` says whether the chain was properly terminated. */
  function Answer(data: seq<byte>, name: seq<byte>, ended: bool): (r: Lookup)
    requires |name| == 11
    ensures r.Found? ==> |r.entry| == 32
  {
    match Scan(data, name, 0)
    case Hit(i) => Found(EntryAt(data, i), i)
    case EndMark => Missing
    case RanOff => if ended then Missing else Broken
  }

  function Onward(r: Lookup, n: nat): Lookup {
    if r.Found? then Found(r.entry, r.index + n) else r
  }

  lemma AnswerAppend(a: seq<byte>, m: nat, b: seq<byte>, name: seq<byte>, ended: bool)
    requires |a| == 32 * m && |name| == 11
    ensures Answer(a + b, name, ended) ==
              if Scan(a, name, 0).RanOff? then Onward(Answer(b, name, ended), m) else Answer(a, name, ended)
  {
    ScanAppend(a, m, b, name, 0);
    var r, u := Scan(a, name, 0), Scan(b, name, 0);
    if r.Hit? { EntryAppend(a, m, b, r.index); }
    if r.RanOff? && u.Hit? { EntryAppend(a, m, b, u.index + m); }
    hide Scan, EntryAt;
  }

  lemma EntryAppend(a: seq<byte>, m: nat, b: seq<byte>, i: nat)
    requires |a| == 32 * m && 32 * i + 32 <= |a| + |b|
    ensures EntryAt(a + b, i) == if i < m then EntryAt(a, i) else EntryAt(b, i - m)
  {
  }

  /** The clusters of a trail up to the first that is not on the partition. */
  function Readable(g: Geometry, sectors: nat, ch: seq<nat>): (p: seq<nat>)
    ensures |p| <= |ch| && AllOnDisk(g, sectors, p)
  {
    if |ch| == 0 || !g.OnDisk(sectors, ch[0]) then []
    else
      var p := Readable(g, sectors, ch[1..]);
      assert forall i :: 0 < i < |p| + 1 ==> ([ch[0]] + p)[i] == p[i - 1];
      [ch[0]] + p
  }

  /** The directory whose clusters are `ch`, searched for a name as typed. */
  ghost function LookupAlong(g: Geometry, disk: Disk, ch: seq<nat>, name: seq<byte>): (r: Lookup)
    requires g.Valid() && |name| <= 12
    requires IsTrail(Table(g, disk), ch)
    ensures r.Found? ==> |r.entry| == 32
  {
    var p := Readable(g, |disk|, ch);
    Answer(TrailData(g, disk, p), Normal(name), |p| == |ch| && Table(g, disk)[Last(ch)] >= END32)
  }

  function Code(r: Lookup): int {
    match r case Found(_, _) => 0 case Missing => -2 case Broken => -1
  }

  /** A cluster that cannot be read ends the search with an error. */
  lemma LookupUnreadable(g: Geometry, disk: Disk, ch: seq<nat>, name: seq<byte>)
    requires g.Valid() && |name| <= 12
    requires IsTrail(Table(g, disk), ch) && !g.OnDisk(|disk|, ch[0])
    ensures LookupAlong(g, disk, ch, name) == Broken
  {
  }

  /** One cluster's worth of the search, then the rest of the trail. */
  lemma LookupStep(g: Geometry, disk: Disk, ch: seq<nat>, name: seq<byte>)
    requires g.Valid() && |name| <= 12
    requires IsTrail(Table(g, disk), ch) && g.OnDisk(|disk|, ch[0])
    ensures var data := ClusterData(g, disk, ch[0]);
            var ended := Table(g, disk)[Last(ch)] >= END32;
            && (|ch| == 1 ==> LookupAlong(g, disk, ch, name) == Answer(data, Normal(name), ended))
            && (|ch| > 1 && !Scan(data, Normal(name), 0).RanOff? ==>
                  exists e :: LookupAlong(g, disk, ch, name) == Answer(data, Normal(name), e))
            && (|ch| > 1 && Scan(data, Normal(name), 0).RanOff? ==>
                  && IsTrail(Table(g, disk), ch[1..]) && Table(g, disk)[ch[0]] == ch[1]
                  && LookupAlong(g, disk, ch, name) ==
                       Onward(LookupAlong(g, disk, ch[1..], name), EntriesPerCluster(g)))
  {
    hide Entry, Scan, Answer, Normal, Span;
    var t := Table(g, disk);
    var p := Readable(g, |disk|, ch[1..]);
    var data, rest := ClusterData(g, disk, ch[0]), TrailData(g, disk, p);
    var ended := |p| + 1 == |ch| && t[Last(ch)] >= END32;
    assert ([ch[0]] + p)[1..] == p;
    AnswerAppend(data, EntriesPerCluster(g), rest, Normal(name), ended);
    if |ch| == 1 {
      assert data + rest == data;
    } else {
      TrailTail(t, ch, 1);
      Link(t, ch, 0);
    }
  }

  /** strcpy into a cleared buffer, and conversion unless the name is already in FAT form. */
  method Normalise(name: seq<byte>) returns (r: seq<byte>)
    requires |name| <= 12 && NoNul(name)
    ensures r == Normal(name)
  {
    var buffer := new byte[13](_ => NUL);
    forall i | 0 <= i < |name| { buffer[i] := name[i]; }
    assert buffer[..] == Buffer13(name);
    var flags := TestIfFatFormat(buffer[..]);
    if flags != 0 { ConvertToFat(buffer, name); }
    return buffer[..11];
  }

  /** The trail goes on exactly when the first entry is a cluster number. */
  lemma FirstLink(t: Fat, ch: seq<nat>)
    requires IsTrail(t, ch)
    ensures |ch| > 0 && InTable(t, ch[0]) && InTable(t, Last(ch))
    ensures InTable(t, t[ch[0]]) <==> |ch| > 1
    ensures |ch| == 1 ==> Last(ch) == ch[0]
  {
    if |ch| > 1 { Link(t, ch, 0); }
  }

  /** The loop of directorySearch over the cluster loaded at the start of the transfer memory. */
  method ScanLoaded(d: Driver, search: seq<byte>) returns (r: Outcome)
    requires d.Valid() && |search| == 11 && NoNul(search)
    ensures r == Scan(d.mem[..d.g.ClusterBytes()], search, 0)
  {
    hide Scan;
    var n := EntriesPerCluster(d.g);
    ghost var data := d.mem[..d.g.ClusterBytes()];
    var k := 0;
    while true
      invariant 0 <= k < n
      invariant Scan(data, search, k) == Scan(data, search, 0)
      decreases n - k
    {
      ScanUnfolds(data, search, k, n);
      r := EntryOutcome(d, search, k);
      if r != RanOff || k == n - 1 { return; }
      k := k + 1;
    }
  }

  lemma ScanUnfolds(data: seq<byte>, name: seq<byte>, k: nat, n: nat)
    requires |data| == 32 * n && k < n && |name| == 11
    ensures Scan(data, name, k) ==
              if data[32 * k] == ENTRY_END then EndMark
              else if data[32 * k..32 * k + 11] == name then Hit(k)
              else if k + 1 < n then Scan(data, name, k + 1) else RanOff
  {
  }

  /** One entry of the loaded cluster: the end marker, the name, or neither. */
  method EntryOutcome(d: Driver, search: seq<byte>, k: nat) returns (r: Outcome)
    requires d.Valid() && |search| == 11 && NoNul(search) && k < EntriesPerCluster(d.g)
    ensures var data := d.mem[..d.g.ClusterBytes()];
            r == if data[32 * k] == ENTRY_END then EndMark
                 else if data[32 * k..32 * k + 11] == search then Hit(k) else RanOff
  {
    var at := 32 * k;
    ghost var data := d.mem[..d.g.ClusterBytes()];
    assert d.mem[at] == data[at];
    if d.mem[at] == ENTRY_END { return EndMark; }
    var name := d.mem[at..at + 11];
    assert name == data[at..at + 11] && name[..11] == name && search[..11] == search;
    var order := Strncmp(name, search, 11);
    return if order == 0 then Hit(k) else RanOff;
  }

  /** Memory from `n` on is the same. */
  ghost predicate BeyondSame(m: seq<byte>, was: seq<byte>, n: nat) {
    n <= |m| == |was| && m[n..] == was[n..]
  }

  lemma PatchedFront(m: seq<byte>, data: seq<byte>)
    requires |data| <= |m|
    ensures BeyondSame(Patch(m, 0, data), m, |data|)
  {
  }

  lemma BeyondMore(m: seq<byte>, was: seq<byte>, k: nat, n: nat)
    requires k <= n <= |m| == |was| && m[k..] == was[k..]
    ensures BeyondSame(m, was, n)
  {
    assert m[n..] == m[k..][n - k..] && was[n..] == was[k..][n - k..];
  }

  /** directorySearch up to the point where it needs another cluster. */
  method SearchCluster(d: Driver, name: seq<byte>, cluster: nat) returns (code: int, r: Outcome, entry: seq<byte>)
    requires d.Valid() && d.g.IsCluster(cluster)
    requires |name| <= 12 && NoNul(name)
    modifies d.mem
    ensures code == if d.g.OnDisk(|d.disk|, cluster) then 0 else -1
    ensures code == 0 ==>
            var data := ClusterData(d.g, d.disk, cluster);
            && r == Scan(data, Normal(name), 0)
            && (r.Hit? ==> r.index < EntriesPerCluster(d.g)
                           && Answer(data, Normal(name), true) == Found(entry, r.index))
    ensures BeyondSame(d.mem[..], old(d.mem[..]), d.g.ClusterBytes())
  {
    var search := Normalise(name);
    NormalHasNoNul(name);
    r, entry := RanOff, [];
    code := d.ClusterRead(cluster, 0);
    if code != 0 { return; }
    ghost var data := ClusterData(d.g, d.disk, cluster);
    assert d.mem[..d.g.ClusterBytes()] == data;
    PatchedFront(old(d.mem[..]), data);
    r := ScanLoaded(d, search);
    if r.Hit? { entry := EntryAt(d.mem[..d.g.ClusterBytes()], r.index); }
  }

  /** directorySearch, for FAT32: scans a cluster, then calls itself on the next. */
  method DirectorySearch(d: Driver, name: seq<byte>, cluster: nat, ghost ch: seq<nat>)
    returns (code: int, entry: seq<byte>, offset: nat)
    requires d.Valid() && d.g.fatType == 32
    requires |name| <= 12 && NoNul(name)
    requires d.g.IsCluster(cluster) ==> TrailFrom(Table(d.g, d.disk), cluster, ch)
    modifies d.mem
    ensures !d.g.IsCluster(cluster) ==> code == -1
    ensures d.g.IsCluster(cluster) ==>
              var r := LookupAlong(d.g, d.disk, ch, name);
              && code == Code(r)
              && (r.Found? ==> entry == r.entry && offset == Rem(r.index, EntriesPerCluster(d.g)))
    ensures BeyondSame(d.mem[..], old(d.mem[..]), d.g.ClusterBytes())
    decreases if d.g.IsCluster(cluster) then |ch| else 0
  {
    hide Entry, Scan, Answer, LookupAlong, Normal, IsTrail, Quot, FatLoaded, Times, EntriesPerCluster;
    entry, offset := [], 0;
    if cluster < 2 || cluster >= d.g.total { return -1, entry, offset; }
    ghost var t := Table(d.g, d.disk);
    FirstLink(t, ch);
    var r;
    code, r, entry := SearchCluster(d, name, cluster);
    if code != 0 {
      LookupUnreadable(d.g, d.disk, ch, name);
      return -1, entry, offset;
    }
    LookupStep(d.g, d.disk, ch, name);
    AnswerOutcome(ClusterData(d.g, d.disk, cluster), Normal(name));
    if r.EndMark? { return -2, entry, offset; }
    if r.Hit? { return 0, entry, r.index; }
    ghost var m := d.mem[..];
    var next := d.FatRead(cluster);
    BeyondMore(d.mem[..], m, 512, d.g.ClusterBytes());
    assert next == t[cluster];
    if next >= END32 { return -2, entry, offset; }
    if next < 0 { return -1, entry, offset; }
    code, entry, offset := DirectorySearch(d, name, next, ch[1..]);
  }

  lemma AnswerOutcome(data: seq<byte>, name: seq<byte>)
    requires |name| == 11
    ensures var r := Scan(data, name, 0);
            forall ended ::
              && (r.Hit? ==> Answer(data, name, ended) == Answer(data, name, true))
              && (r.EndMark? ==> Answer(data, name, ended) == Missing)
              && (r.RanOff? ==> Answer(data, name, ended) == if ended then Missing else Broken)
  {
  }

  /** A lookup breaks off with an error exactly when it passes all entries that can be read and then meets a
      cluster that cannot, or a link that is no end marker. */
  lemma LookupBrokenIff(g: Geometry, disk: Disk, ch: seq<nat>, name: seq<byte>)
    requires g.Valid() && |name| <= 12 && IsTrail(Table(g, disk), ch)
    ensures var p := Readable(g, |disk|, ch);
            LookupAlong(g, disk, ch, name) == Broken <==>
              && Scan(TrailData(g, disk, p), Normal(name), 0) == RanOff
              && (!AllOnDisk(g, |disk|, ch) || Table(g, disk)[Last(ch)] < END32)
  {
    hide Scan, Normal, TrailData, Entry, IsTrail;
    ReadableAll(g, |disk|, ch);
  }

  lemma {:induction false} ReadableAll(g: Geometry, sectors: nat, ch: seq<nat>)
    ensures |Readable(g, sectors, ch)| == |ch| <==> AllOnDisk(g, sectors, ch)
    decreases |ch|
  {
    if |ch| > 0 {
      ReadableAll(g, sectors, ch[1..]);
      assert forall i :: 0 < i < |ch| ==> ch[i] == ch[1..][i - 1];
      if g.OnDisk(sectors, ch[0]) && AllOnDisk(g, sectors, ch[1..]) {
        forall i | 0 <= i < |ch| ensures g.OnDisk(sectors, ch[i]) { if i > 0 { assert ch[i] == ch[1..][i - 1]; } }
      }
    }
  }

  /** A scan runs off exactly when every entry is live and has another name. */
  lemma {:induction false} ScanRunsOffIff(data: seq<byte>, n: nat, name: seq<byte>, k: nat)
    requires |data| == 32 * n && k <= n && |name| == 11
    ensures Scan(data, name, k) == RanOff <==> Passed(data, name, k, n)
    decreases n - k
  {
    hide Passed;
    if k < n {
      ScanRunsOffIff(data, n, name, k + 1);
      PassedStep(data, name, k, n);
    } else {
      PassedNothing(data, name, k);
    }
  }
}
