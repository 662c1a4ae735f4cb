/** Files: resolving a path, reading a chain into memory. */
module Files {
  import opened Arith
  import opened Bytes
  import opened Volume
  import opened Chains
  import opened Names
  import opened Driver
  import opened Directory

  const BACKSLASH: byte := 0x5C

  // ---------------------------------------------------------------------
  // Directory entries
  // ---------------------------------------------------------------------

  /** GET_CLUSTER_FROM_ENTRY: low bits at 26, high bits at 20. */
  function ClusterOf(e: seq<byte>): (c: nat)
    requires |e| == 32
    ensures c < 0x1_0000_0000
  {
    Le16(e, 26) + 0x1_0000 * Le16(e, 20)
  }

  predicate IsDirectory(e: seq<byte>)
    requires |e| == 32
  {
    e[11] / 0x10 % 2 == 1
  }

  function FileSize(e: seq<byte>): nat
    requires |e| == 32
  {
    Le32(e, 28)
  }

  /** The 16-bit halves that directoryAdd stores for a cluster number: GET_ENTRY_HIGH_BITS, and
      GET_ENTRY_LOW_BITS, which masks with (32 / 2) - 1. */
  function StoredHigh(c: nat): nat {
    c / 0x1_0000
  }

  function StoredLow(c: nat): nat {
    c % 0x10
  }

  /** A cluster number survives being stored in an entry exactly when its low half is below 16. */
  lemma StoredClusterIff(c: nat, e: seq<byte>)
    requires c < 0x1_0000_0000 && |e| == 32
    requires Le16(e, 20) == StoredHigh(c) && Le16(e, 26) == StoredLow(c)
    ensures ClusterOf(e) == c <==> c % 0x1_0000 < 0x10
  {
  }

  /** struct directory_entry. */
  datatype Fields = Fields(name: seq<byte>, attributes: byte, reserved: byte, tenths: byte, created: nat,
                           createdOn: nat, accessedOn: nat, high: nat, changed: nat, changedOn: nat, low: nat,
                           size: nat) {
    predicate Valid() {
      && |name| == 11 && created < 0x1_0000 && createdOn < 0x1_0000 && accessedOn < 0x1_0000 && high < 0x1_0000
      && changed < 0x1_0000 && changedOn < 0x1_0000 && low < 0x1_0000 && size < 0x1_0000_0000
    }

    function Bytes(): (s: seq<byte>)
      requires Valid()
      ensures |s| == 32
    {
      name + [attributes, reserved, tenths] + ToLe16(created) + ToLe16(createdOn) + ToLe16(accessedOn) + ToLe16(high)
      + ToLe16(changed) + ToLe16(changedOn) + ToLe16(low) + ToLe32(size)
    }
  }

  /** What the driver takes from an entry: the cluster from both halves, the size, and the attribute bit of
      a directory. */
  lemma FieldsRead(x: Fields, attributes: bv8)
    requires x.Valid() && x.attributes == attributes as int
    ensures ClusterOf(x.Bytes()) == 0x1_0000 * x.high + x.low && FileSize(x.Bytes()) == x.size
    ensures IsDirectory(x.Bytes()) <==> attributes & 0x10 == 0x10
  {
    var s := x.Bytes();
    assert s[20..22] == ToLe16(x.high) && s[26..28] == ToLe16(x.low) && s[28..32] == ToLe32(x.size);
    SameBytes(s, 20, ToLe16(x.high));
    SameBytes(s, 26, ToLe16(x.low));
    assert s[28] == s[28..32][0] && s[29] == s[28..32][1] && s[30] == s[28..32][2] && s[31] == s[28..32][3];
    assert Le32(s, 28) == Le32(s[28..32], 0);
    assert s[11] == x.attributes;
    DirectoryBit(attributes);
  }

  lemma SameBytes(s: seq<byte>, at: nat, w: seq<byte>)
    requires at + 2 <= |s| && |w| == 2 && s[at..at + 2] == w
    ensures Le16(s, at) == Le16(w, 0)
  {
    assert s[at] == s[at..at + 2][0] && s[at + 1] == s[at..at + 2][1];
  }

  lemma DirectoryBit(a: bv8)
    ensures a as int / 0x10 % 2 == 1 <==> a & 0x10 == 0x10
  {
  }

  // ---------------------------------------------------------------------
  // Paths
  // ---------------------------------------------------------------------

  function SlashAt(s: seq<byte>): (k: nat)
    ensures k <= |s|
    ensures forall i :: 0 <= i < k ==> s[i] != BACKSLASH
    ensures k < |s| ==> s[k] == BACKSLASH
  {
    if |s| == 0 || s[0] == BACKSLASH then 0 else 1 + SlashAt(s[1..])
  }

  /** The backslash-separated parts of a path; there is always at least one. */
  function Components(s: seq<byte>): (r: seq<seq<byte>>)
    ensures |r| > 0
  {
    var k := SlashAt(s);
    if k == |s| then [s] else [s[..k]] + Components(s[k + 1..])
  }

  lemma ComponentsAt(s: seq<byte>, k: nat)
    requires k <= |s| && (k < |s| ==> s[k] == BACKSLASH)
    requires forall i :: 0 <= i < k ==> s[i] != BACKSLASH
    ensures Components(s) == if k == |s| then [s] else [s[..k]] + Components(s[k + 1..])
  {
    hide SlashAt;
    SlashIs(s, k);
    if k == |s| { assert Components(s) == [s]; } else { assert Components(s) == [s[..k]] + Components(s[k + 1..]); }
  }

  lemma {:induction false} SlashIs(s: seq<byte>, k: nat)
    requires k <= |s| && (k < |s| ==> s[k] == BACKSLASH)
    requires forall i :: 0 <= i < k ==> s[i] != BACKSLASH
    ensures SlashAt(s) == k
    decreases k
  {
    if k > 0 { SlashIs(s[1..], k - 1); }
  }

  /** Parts with backslashes between them. */
  function JoinedPath(parts: seq<seq<byte>>): seq<byte>
    requires |parts| > 0
  {
    if |parts| == 1 then parts[0] else parts[0] + Text("\\") + JoinedPath(parts[1..])
  }

  ghost predicate Plain(part: seq<byte>) {
    BACKSLASH !in part
  }

  /** Splitting undoes joining ... */
  lemma {:induction false} ComponentsOfJoined(parts: seq<seq<byte>>)
    requires |parts| > 0 && forall i :: 0 <= i < |parts| ==> Plain(parts[i])
    ensures Components(JoinedPath(parts)) == parts
    decreases |parts|
  {
    var s, k := JoinedPath(parts), |parts[0]|;
    assert Plain(parts[0]);
    assert s[..k] == parts[0];
    ComponentsAt(s, k);
    if |parts| == 1 {
      assert parts == [parts[0]];
    } else {
      ComponentsOfJoined(parts[1..]);
      assert s[k + 1..] == JoinedPath(parts[1..]);
      assert parts == [parts[0]] + parts[1..];
    }
  }

  /** ... and joining undoes splitting. */
  lemma {:induction false} JoinedOfComponents(s: seq<byte>)
    ensures JoinedPath(Components(s)) == s
    ensures forall i :: 0 <= i < |Components(s)| ==> Plain(Components(s)[i])
    decreases |s|
  {
    var k := SlashAt(s);
    if k < |s| {
      JoinedOfComponents(s[k + 1..]);
      assert Components(s)[1..] == Components(s[k + 1..]);
      assert s == s[..k] + [BACKSLASH] + s[k + 1..] && Text("\\") == [BACKSLASH];
    }
  }

  /** A FAT32 volume whose links do not run in circles. */
  ghost predicate Sound(g: Geometry, disk: Disk) {
    g.Valid() && g.fatType == 32 && Acyclic(Table(g, disk))
  }

  ghost function LookupFrom(g: Geometry, disk: Disk, cluster: nat, name: seq<byte>): (r: Lookup)
    requires Sound(g, disk) && |name| <= 12
    ensures r.Found? ==> |r.entry| == 32
  {
    if g.IsCluster(cluster) then LookupAlong(g, disk, TrailOf(Table(g, disk), cluster), name) else Broken
  }

  ghost predicate Short(parts: seq<seq<byte>>) {
    forall i :: 0 <= i < |parts| ==> |parts[i]| <= 12 && NoNul(parts[i])
  }

  /** A path is a fold of directory lookups over its components. */
  ghost function Resolve(g: Geometry, disk: Disk, parts: seq<seq<byte>>, cluster: nat): (r: Lookup)
    requires Sound(g, disk) && |parts| > 0 && Short(parts)
    ensures r.Found? ==> |r.entry| == 32
    decreases |parts|
  {
    var r := LookupFrom(g, disk, cluster, parts[0]);
    if |parts| > 1 && r.Found? then Resolve(g, disk, parts[1..], ClusterOf(r.entry)) else r
  }

  lemma ResolveStep(g: Geometry, disk: Disk, part: seq<byte>, rest: seq<seq<byte>>, cluster: nat)
    requires Sound(g, disk) && Short([part] + rest)
    ensures |part| <= 12 && NoNul(part) && Short(rest)
    ensures var r := LookupFrom(g, disk, cluster, part);
            Resolve(g, disk, [part] + rest, cluster) ==
              if |rest| > 0 && r.Found? then Resolve(g, disk, rest, ClusterOf(r.entry)) else r
  {
    var parts := [part] + rest;
    assert parts[0] == part && parts[1..] == rest;
    assert forall i :: 0 <= i < |rest| ==> rest[i] == parts[i + 1];
  }

  method Search(d: Driver, name: seq<byte>, cluster: nat) returns (code: int, entry: seq<byte>)
    requires d.Valid() && Sound(d.g, d.disk) && |name| <= 12 && NoNul(name)
    modifies d.mem
    ensures var r := LookupFrom(d.g, d.disk, cluster, name);
            code == Code(r) && (r.Found? ==> entry == r.entry)
    ensures BeyondSame(d.mem[..], old(d.mem[..]), d.g.ClusterBytes())
  {
    hide LookupAlong;
    ghost var ch := if d.g.IsCluster(cluster) then TrailOf(Table(d.g, d.disk), cluster) else [];
    var offset;
    code, entry, offset := DirectorySearch(d, name, cluster, ch);
  }

  /** The path from `start` on, still to be resolved from `cluster`, leads to `goal`. */
  ghost predicate LeadsTo(g: Geometry, disk: Disk, rest: seq<byte>, cluster: nat, goal: Lookup)
    requires Sound(g, disk)
  {
    Short(Components(rest)) && Resolve(g, disk, Components(rest), cluster) == goal
  }

  /** Resolving the component in front of position `k`. */
  lemma LeadsOn(g: Geometry, disk: Disk, rest: seq<byte>, cluster: nat, goal: Lookup, k: nat)
    requires Sound(g, disk) && LeadsTo(g, disk, rest, cluster, goal)
    requires k <= |rest| && (k < |rest| ==> rest[k] == BACKSLASH)
    requires forall i :: 0 <= i < k ==> rest[i] != BACKSLASH
    ensures |rest[..k]| <= 12 && NoNul(rest[..k])
    ensures var r := LookupFrom(g, disk, cluster, rest[..k]);
            if k < |rest| && r.Found? then LeadsTo(g, disk, rest[k + 1..], ClusterOf(r.entry), goal) else r == goal
  {
    ComponentsAt(rest, k);
    hide Components, Resolve, LookupFrom, Acyclic;
    if k == |rest| {
      assert rest[..k] == rest && [rest] == [rest[..k]] + [];
      ResolveStep(g, disk, rest[..k], [], cluster);
    } else {
      ResolveStep(g, disk, rest[..k], Components(rest[k + 1..]), cluster);
    }
  }

  /** One component: the part of `rest` before position `k`. */
  method ResolvePart(d: Driver, rest: seq<byte>, k: nat, cluster: nat, ghost goal: Lookup)
    returns (code: int, entry: seq<byte>)
    requires d.Valid() && Sound(d.g, d.disk) && LeadsTo(d.g, d.disk, rest, cluster, goal)
    requires k <= |rest| && (k < |rest| ==> rest[k] == BACKSLASH)
    requires forall i :: 0 <= i < k ==> rest[i] != BACKSLASH
    modifies d.mem
    ensures code in {0, -1, -2}
    ensures code != 0 ==> !goal.Found? && code == Code(goal)
    ensures code == 0 ==> |entry| == 32
    ensures code == 0 && k < |rest| ==> LeadsTo(d.g, d.disk, rest[k + 1..], ClusterOf(entry), goal)
    ensures code == 0 && k == |rest| ==> goal.Found? && goal.entry == entry
    ensures BeyondSame(d.mem[..], old(d.mem[..]), d.g.ClusterBytes())
  {
    LeadsOn(d.g, d.disk, rest, cluster, goal, k);
    hide LeadsTo, Resolve, LookupFrom, Components;
    code, entry := Search(d, rest[..k], cluster);
  }

  /** The loop of getFile over the path. Paths start with a drive and a backslash. The driver keeps the
      start of a component in 16 bits. */
  method ResolvePath(d: Driver, path: seq<byte>) returns (code: int, entry: seq<byte>)
    requires d.Valid() && Sound(d.g, d.disk)
    requires 3 <= |path| < 0x1_0000 && Short(Components(path[3..]))
    modifies d.mem
    ensures var r := Resolve(d.g, d.disk, Components(path[3..]), d.g.root);
            code == Code(r) && (r.Found? ==> entry == r.entry)
    ensures BeyondSame(d.mem[..], old(d.mem[..]), d.g.ClusterBytes())
  {
    ghost var goal := Resolve(d.g, d.disk, Components(path[3..]), d.g.root);
    assert LeadsTo(d.g, d.disk, path[3..], d.g.root, goal);
    code, entry := ResolveFrom(d, path, goal);
  }

  method ResolveFrom(d: Driver, path: seq<byte>, ghost goal: Lookup) returns (code: int, entry: seq<byte>)
    requires d.Valid() && Sound(d.g, d.disk)
    requires 3 <= |path| < 0x1_0000 && LeadsTo(d.g, d.disk, path[3..], d.g.root, goal)
    modifies d.mem
    ensures code == Code(goal) && (goal.Found? ==> entry == goal.entry)
    ensures BeyondSame(d.mem[..], old(d.mem[..]), d.g.ClusterBytes())
  {
    hide LeadsTo, Resolve, LookupFrom, Components, Sound, ClusterOf;
    var start, active, it := 3, d.g.root, 3;
    entry, code := [], -1;
    while it <= |path|
      invariant 3 <= start <= it <= |path| + 1
      invariant forall i :: start <= i < it && i < |path| ==> path[i] != BACKSLASH
      invariant start <= |path| ==> it <= |path| && LeadsTo(d.g, d.disk, path[start..], active, goal)
      invariant start > |path| ==> code == 0 && goal.Found? && entry == goal.entry
      invariant BeyondSame(d.mem[..], old(d.mem[..]), d.g.ClusterBytes())
    {
      if it == |path| || path[it] == BACKSLASH {
        code, entry := ResolvePart(d, path[start..], it - start, active, goal);
        if code != 0 { return; }
        if it < |path| { assert path[start..][it - start + 1..] == path[it + 1..]; }
        start := it + 1;
        active := ClusterOf(entry);
      }
      it := it + 1;
    }
  }

  // ---------------------------------------------------------------------
  // Reading a file
  // ---------------------------------------------------------------------

  lemma {:induction false} TrailDataSnoc(g: Geometry, disk: Disk, ch: seq<nat>, c: nat)
    requires g.Valid() && g.OnDisk(|disk|, c) && AllOnDisk(g, |disk|, ch)
    ensures TrailData(g, disk, ch + [c]) == TrailData(g, disk, ch) + ClusterData(g, disk, c)
  {
    hide Span, Times;
    if |ch| == 0 {
      assert [c][1..] == [] && ch + [c] == [c];
    } else {
      TrailDataSnoc(g, disk, ch[1..], c);
      assert (ch + [c])[1..] == ch[1..] + [c];
    }
  }

  /** Memory `m` is `before` with `data` at `base`, apart from the FAT lookup area in front. */
  ghost predicate Loaded(m: seq<byte>, before: seq<byte>, base: nat, data: seq<byte>) {
    512 <= base && base + |data| <= |before| == |m| && m[512..] == Patch(before, base, data)[512..]
  }

  /** Loading something directly after what is there already. */
  lemma LoadedMore(m': seq<byte>, m: seq<byte>, before: seq<byte>, base: nat, data: seq<byte>, more: seq<byte>)
    requires Loaded(m, before, base, data) && Loaded(m', m, base + |data|, more)
    ensures Loaded(m', before, base, data + more)
  {
    var at := base + |data|;
    var now := Patch(before, base, data);
    PatchAppend(before, base, data, more);
    assert forall i :: 512 <= i < |m| ==> m[i] == m[512..][i - 512] && now[i] == now[512..][i - 512];
    assert Patch(m, at, more)[512..] == Patch(now, at, more)[512..];
  }

  lemma LoadedHolds(m: seq<byte>, before: seq<byte>, base: nat, data: seq<byte>)
    requires Loaded(m, before, base, data)
    ensures m[base..base + |data|] == data
  {
    var p := Patch(before, base, data);
    assert p[base..base + |data|] == data;
    assert forall i :: 512 <= i < |m| ==> m[i] == m[512..][i - 512] && p[i] == p[512..][i - 512];
  }

  /** What the read loop leaves for the clusters `ch` in memory from `base` on. A cluster that is not on
      the partition leaves the bytes that were there before. */
  function Seen(g: Geometry, disk: Disk, before: seq<byte>, base: nat, ch: seq<nat>): (s: seq<byte>)
    requires g.Valid() && base + Times(|ch|, g.ClusterBytes()) <= |before|
    ensures |s| == Times(|ch|, g.ClusterBytes())
    decreases |ch|
  {
    if |ch| == 0 then []
    else
      var at := base + Times(|ch| - 1, g.ClusterBytes());
      Seen(g, disk, before, base, ch[..|ch| - 1])
      + if g.OnDisk(|disk|, Last(ch)) then ClusterData(g, disk, Last(ch)) else before[at..at + g.ClusterBytes()]
  }

  /** What one cluster leaves. */
  function Piece(g: Geometry, disk: Disk, before: seq<byte>, at: nat, c: nat): (s: seq<byte>)
    requires g.Valid() && at + g.ClusterBytes() <= |before|
    ensures |s| == g.ClusterBytes()
  {
    if g.OnDisk(|disk|, c) then ClusterData(g, disk, c) else before[at..at + g.ClusterBytes()]
  }

  lemma SeenLast(g: Geometry, disk: Disk, before: seq<byte>, base: nat, ch: seq<nat>)
    requires g.Valid() && base + Times(|ch|, g.ClusterBytes()) <= |before| && |ch| > 0
    ensures var n, front := g.ClusterBytes(), ch[..|ch| - 1];
            && Times(|ch|, n) == Times(|front|, n) + n
            && Seen(g, disk, before, base, ch) ==
                 Seen(g, disk, before, base, front) + Piece(g, disk, before, base + Times(|front|, n), Last(ch))
  {
    hide ClusterData;
  }

  lemma {:induction false} SeenPiece(g: Geometry, disk: Disk, before: seq<byte>, base: nat, ch: seq<nat>, k: nat)
    requires g.Valid() && base + Times(|ch|, g.ClusterBytes()) <= |before| && k < |ch|
    ensures var at, n := Times(k, g.ClusterBytes()), g.ClusterBytes();
            && at + n <= Times(|ch|, n)
            && Seen(g, disk, before, base, ch)[at..at + n] == Piece(g, disk, before, base + at, ch[k])
    decreases |ch|
  {
    hide Seen, Times, Piece;
    SeenLast(g, disk, before, base, ch);
    var n, front := g.ClusterBytes(), ch[..|ch| - 1];
    var s, piece := Seen(g, disk, before, base, front), Piece(g, disk, before, base + Times(|front|, n), Last(ch));
    TimesStep(k, |ch|, n);
    if k < |front| {
      SeenPiece(g, disk, before, base, front, k);
      SliceOfFront(s, piece, Times(k, n), n);
    } else {
      SliceOfBack(s, piece);
    }
  }

  /** Slot by slot: the data of the cluster, or what the slot held before. */
  lemma SeenSlot(g: Geometry, disk: Disk, before: seq<byte>, base: nat, ch: seq<nat>, k: nat)
    requires g.Valid() && base + Times(|ch|, g.ClusterBytes()) <= |before| && k < |ch|
    ensures var at := Times(k, g.ClusterBytes());
            && at + g.ClusterBytes() <= Times(|ch|, g.ClusterBytes())
            && Seen(g, disk, before, base, ch)[at..at + g.ClusterBytes()] ==
                 if g.OnDisk(|disk|, ch[k]) then ClusterData(g, disk, ch[k])
                 else before[base + at..base + at + g.ClusterBytes()]
  {
    hide Seen, Times, ClusterData;
    SeenPiece(g, disk, before, base, ch, k);
  }

  lemma SliceOfFront(s: seq<byte>, t: seq<byte>, at: nat, n: nat)
    requires at + n <= |s|
    ensures (s + t)[at..at + n] == s[at..at + n]
  {
  }

  lemma SliceOfBack(s: seq<byte>, t: seq<byte>)
    ensures (s + t)[|s|..|s| + |t|] == t
  {
  }

  /** With all clusters on the partition it is the file. */
  lemma {:induction false} SeenAll(g: Geometry, disk: Disk, before: seq<byte>, base: nat, ch: seq<nat>)
    requires g.Valid() && base + Times(|ch|, g.ClusterBytes()) <= |before| && AllOnDisk(g, |disk|, ch)
    ensures Seen(g, disk, before, base, ch) == TrailData(g, disk, ch)
    decreases |ch|
  {
    hide ClusterData;
    if |ch| > 0 {
      SeenAll(g, disk, before, base, ch[..|ch| - 1]);
      TrailDataSnoc(g, disk, ch[..|ch| - 1], Last(ch));
      assert ch == ch[..|ch| - 1] + [Last(ch)];
    }
  }

  /** So what is loaded is determined by the disk exactly when all clusters are on the partition. */
  lemma LoadDeterminedIff(g: Geometry, disk: Disk, base: nat, ch: seq<nat>, size: nat)
    requires g.Valid() && base + Times(|ch|, g.ClusterBytes()) <= size
    ensures (forall m: seq<byte>, m': seq<byte> :: |m| == |m'| == size ==>
               Seen(g, disk, m, base, ch) == Seen(g, disk, m', base, ch))
            <==> AllOnDisk(g, |disk|, ch)
  {
    hide Seen, ClusterData;
    if AllOnDisk(g, |disk|, ch) {
      forall m: seq<byte>, m': seq<byte> | |m| == |m'| == size
        ensures Seen(g, disk, m, base, ch) == Seen(g, disk, m', base, ch)
      {
        SeenAll(g, disk, m, base, ch);
        SeenAll(g, disk, m', base, ch);
      }
    } else {
      var k: nat :| k < |ch| && !g.OnDisk(|disk|, ch[k]);
      var m: seq<byte>, m': seq<byte> := seq(size, _ => 0), seq(size, _ => 1);
      SeenSlot(g, disk, m, base, ch, k);
      SeenSlot(g, disk, m', base, ch, k);
      var at := Times(k, g.ClusterBytes());
      assert m[base + at..base + at + g.ClusterBytes()][0] == 0 && m'[base + at..base + at + g.ClusterBytes()][0] == 1;
    }
  }

  /** Only memory from `base` on matters. */
  lemma {:induction false} SeenFrame(g: Geometry, disk: Disk, m: seq<byte>, was: seq<byte>, base: nat, ch: seq<nat>)
    requires g.Valid() && base + Times(|ch|, g.ClusterBytes()) <= |m| && BeyondSame(m, was, base)
    ensures Seen(g, disk, m, base, ch) == Seen(g, disk, was, base, ch)
    decreases |ch|
  {
    hide ClusterData;
    if |ch| > 0 {
      SeenFrame(g, disk, m, was, base, ch[..|ch| - 1]);
      SliceBeyond(m, was, base, base + Times(|ch| - 1, g.ClusterBytes()), g.ClusterBytes());
    }
  }

  lemma SliceBeyond(m: seq<byte>, was: seq<byte>, base: nat, at: nat, n: nat)
    requires BeyondSame(m, was, base) && base <= at && at + n <= |m|
    ensures m[at..at + n] == was[at..at + n]
  {
    forall x | at <= x < at + n ensures m[x] == was[x] {
      assert m[x] == m[base..][x - base] && was[x] == was[base..][x - base];
    }
  }

  /** A read that loads nothing leaves what was there. */
  lemma LoadedStale(m': seq<byte>, m: seq<byte>, before: seq<byte>, base: nat, data: seq<byte>, n: nat)
    requires Loaded(m, before, base, data) && |m'| == |m| && m'[512..] == m[512..] && base + |data| + n <= |m|
    ensures Loaded(m', before, base, data + before[base + |data|..base + |data| + n])
  {
    var at := base + |data|;
    var stale := before[at..at + n];
    assert Patch(before, base, data + stale) == Patch(before, base, data);
  }

  /** A signed number passed where the driver expects an unsigned one. */
  function Unsigned(v: int): nat
    requires -0x8000_0000 <= v < 0x8000_0000
  {
    if v < 0 then v + 0x1_0000_0000 else v
  }

  /** What follows the last cluster: the number itself when it names no cluster. */
  ghost function Stop(t: Fat, first: int, ch: seq<nat>): int
    requires |ch| > 0 ==> IsTrail(t, ch)
  {
    if |ch| == 0 then first else t[Last(ch)]
  }

  ghost predicate Follows(t: Fat, first: int, ch: seq<nat>) {
    if InTable(t, first) then TrailFrom(t, first, ch) else ch == []
  }

  lemma {:induction false} TrailDataLength(g: Geometry, disk: Disk, ch: seq<nat>)
    requires g.Valid() && AllOnDisk(g, |disk|, ch)
    ensures |TrailData(g, disk, ch)| == Times(|ch|, g.ClusterBytes())
    decreases |ch|
  {
    hide Span;
    if |ch| > 0 { TrailDataLength(g, disk, ch[1..]); }
  }

  lemma SlotPlus(g: Geometry, slot: nat, k: nat)
    ensures SlotAt(g, slot + k) == SlotAt(g, slot) + Times(k, g.ClusterBytes())
  {
    TimesPlus(slot, k, g.ClusterBytes());
  }

  lemma SlotBeyondFat(g: Geometry, slot: nat)
    requires g.Valid() && slot >= 1
    ensures SlotAt(g, slot) >= 512
  {
    assert SlotAt(g, slot) == g.ClusterBytes() + SlotAt(g, slot - 1);
  }

  lemma StopsOutside(t: Fat, first: int, ch: seq<nat>)
    requires Follows(t, first, ch)
    ensures |ch| > 0 ==> IsTrail(t, ch)
    ensures !InTable(t, Stop(t, first, ch))
    ensures first == if |ch| > 0 then ch[0] else Stop(t, first, ch)
    ensures forall i :: 0 <= i < |ch| ==> InTable(t, ch[i])
  {
  }

  lemma NextAlong(t: Fat, first: int, ch: seq<nat>, k: nat)
    requires Follows(t, first, ch) && k < |ch|
    ensures IsTrail(t, ch)
    ensures t[ch[k]] == if k + 1 < |ch| then ch[k + 1] else Stop(t, first, ch)
  {
    if k + 1 < |ch| { Link(t, ch, k); }
  }

  /** One turn of getFile's loop: load a cluster and look up the next. A number that names no cluster,
      or one that is not on the partition, loads nothing. */
  method LoadNext(d: Driver, c: nat, slot: nat) returns (next: int)
    requires d.Valid() && d.g.fatType == 32 && slot >= 1
    requires d.g.IsCluster(c) ==> SlotAt(d.g, slot) + d.g.ClusterBytes() <= d.mem.Length
    modifies d.mem
    ensures next == Entry(d.g, d.disk, c)
    ensures d.g.OnDisk(|d.disk|, c) ==>
              Loaded(d.mem[..], old(d.mem[..]), SlotAt(d.g, slot), ClusterData(d.g, d.disk, c))
    ensures !d.g.OnDisk(|d.disk|, c) ==> d.mem[512..] == old(d.mem[512..])
    ensures !d.g.IsCluster(c) ==> next == -1
  {
    SlotBeyondFat(d.g, slot);
    hide Quot, Rem, Times, Patch;
    var ignored := d.ClusterRead(c, slot);
    ghost var m := d.mem[..];
    next := d.FatRead(c);
    assert d.mem[..][512..] == m[512..];
  }

  /** Where getFile's loop is: `count` clusters are done and `cluster` comes next. */
  ghost predicate Reading(g: Geometry, disk: Disk, first: int, ch: seq<nat>, slot: nat, before: seq<byte>,
                          count: nat, cluster: int, m: seq<byte>)
  {
    && g.Valid() && Follows(Table(g, disk), first, ch)
    && SlotAt(g, slot + |ch|) <= |before| == |m|
    && count <= |ch|
    && cluster == (if count < |ch| then ch[count] else Stop(Table(g, disk), first, ch))
    && SlotAt(g, slot) + Times(count, g.ClusterBytes()) <= |before|
    && Loaded(m, before, SlotAt(g, slot), Seen(g, disk, before, SlotAt(g, slot), ch[..count]))
  }

  lemma ReadingStarts(g: Geometry, disk: Disk, first: int, ch: seq<nat>, slot: nat, before: seq<byte>)
    requires g.Valid() && Follows(Table(g, disk), first, ch) && slot >= 1
    requires SlotAt(g, slot + |ch|) <= |before|
    ensures Reading(g, disk, first, ch, slot, before, 0, first, before)
  {
    SlotBeyondFat(g, slot);
    SlotPlus(g, slot, |ch|);
    LoadedNothing(before, SlotAt(g, slot));
    StopsOutside(Table(g, disk), first, ch);
    assert ch[..0] == [];
  }

  /** A cluster number means the trail goes on, and that its cluster still fits. */
  lemma ReadingFits(g: Geometry, disk: Disk, first: int, ch: seq<nat>, slot: nat, before: seq<byte>,
                    count: nat, cluster: int, m: seq<byte>)
    requires Reading(g, disk, first, ch, slot, before, count, cluster, m)
    ensures |m| == |before| && count <= |ch|
    ensures g.IsCluster(cluster) <==> count < |ch|
    ensures g.IsCluster(cluster) ==> SlotAt(g, slot + count) + g.ClusterBytes() <= |m|
    ensures count == |ch| ==> cluster == Stop(Table(g, disk), first, ch)
    ensures SlotAt(g, slot) + Times(|ch|, g.ClusterBytes()) <= |before|
    ensures count == |ch| ==> Loaded(m, before, SlotAt(g, slot), Seen(g, disk, before, SlotAt(g, slot), ch))
  {
    hide Entry, Seen, Stop, Follows, Times, Loaded, IsTrail;
    SlotPlus(g, slot, |ch|);
    StopsOutside(Table(g, disk), first, ch);
    if count < |ch| { TimesStep(slot + count, slot + |ch|, g.ClusterBytes()); } else { assert ch[..count] == ch; }
  }

  lemma ReadingOn(g: Geometry, disk: Disk, first: int, ch: seq<nat>, slot: nat, before: seq<byte>,
                  count: nat, cluster: int, m: seq<byte>, m': seq<byte>)
    requires Reading(g, disk, first, ch, slot, before, count, cluster, m) && g.IsCluster(cluster)
    requires |m'| == |m|
    requires g.OnDisk(|disk|, cluster) ==> Loaded(m', m, SlotAt(g, slot + count), ClusterData(g, disk, cluster))
    requires !g.OnDisk(|disk|, cluster) ==> |m| >= 512 && m'[512..] == m[512..]
    ensures count < |ch|
    ensures Reading(g, disk, first, ch, slot, before, count + 1, Entry(g, disk, cluster), m')
  {
    hide Entry, ClusterData, Times, Stop, Follows, Loaded, IsTrail, Seen, SlotAt;
    ReadingFits(g, disk, first, ch, slot, before, count, cluster, m);
    NextAlong(Table(g, disk), first, ch, count);
    SlotsOn(g, slot, count, |ch|);
    SeenMore(g, disk, before, SlotAt(g, slot), ch[..count], cluster, m, m');
    assert ch[..count + 1] == ch[..count] + [cluster];
  }

  lemma SlotsOn(g: Geometry, slot: nat, count: nat, k: nat)
    requires count < k
    ensures SlotAt(g, slot + count) == SlotAt(g, slot) + Times(count, g.ClusterBytes())
    ensures SlotAt(g, slot) + Times(count, g.ClusterBytes()) + g.ClusterBytes() <= SlotAt(g, slot + k)
  {
    SlotPlus(g, slot, count);
    TimesStep(slot + count, slot + k, g.ClusterBytes());
  }

  lemma SeenSnoc(g: Geometry, disk: Disk, before: seq<byte>, base: nat, ch: seq<nat>, c: nat)
    requires g.Valid() && base + Times(|ch|, g.ClusterBytes()) + g.ClusterBytes() <= |before|
    ensures base + Times(|ch + [c]|, g.ClusterBytes()) <= |before|
    ensures var at := base + Times(|ch|, g.ClusterBytes());
            Seen(g, disk, before, base, ch + [c]) ==
              Seen(g, disk, before, base, ch)
              + if g.OnDisk(|disk|, c) then ClusterData(g, disk, c) else before[at..at + g.ClusterBytes()]
  {
    hide ClusterData;
    assert (ch + [c])[..|ch|] == ch && Last(ch + [c]) == c;
  }

  /** One more cluster, loaded or not. */
  lemma SeenMore(g: Geometry, disk: Disk, before: seq<byte>, base: nat, ch: seq<nat>, c: nat,
                 m: seq<byte>, m': seq<byte>)
    requires g.Valid() && base + Times(|ch|, g.ClusterBytes()) + g.ClusterBytes() <= |before| && |m'| == |m| >= 512
    requires Loaded(m, before, base, Seen(g, disk, before, base, ch))
    requires var at := base + Times(|ch|, g.ClusterBytes());
             if g.OnDisk(|disk|, c) then Loaded(m', m, at, ClusterData(g, disk, c)) else m'[512..] == m[512..]
    ensures base + Times(|ch + [c]|, g.ClusterBytes()) <= |before|
    ensures Loaded(m', before, base, Seen(g, disk, before, base, ch + [c]))
  {
    hide Seen, ClusterData, Loaded, Times;
    SeenSnoc(g, disk, before, base, ch, c);
    LoadedLength(m, before, base, Seen(g, disk, before, base, ch));
    if g.OnDisk(|disk|, c) {
      LoadedMore(m', m, before, base, Seen(g, disk, before, base, ch), ClusterData(g, disk, c));
    } else {
      LoadedStale(m', m, before, base, Seen(g, disk, before, base, ch), g.ClusterBytes());
    }
  }

  lemma LoadedLength(m: seq<byte>, before: seq<byte>, base: nat, data: seq<byte>)
    requires Loaded(m, before, base, data)
    ensures |m| == |before|
  {
  }

  /** The cluster loop of getFile. Results of clusterRead are ignored; the slot is at least 1, so
      FAT lookups never touch what has been loaded. */
  method ReadChain(d: Driver, first: int, slot: nat, ghost ch: seq<nat>) returns (code: int)
    requires d.Valid() && d.g.fatType == 32
    requires -0x8000_0000 <= first < 0x8000_0000 && slot >= 1
    requires Follows(Table(d.g, d.disk), first, ch)
    requires SlotAt(d.g, slot + |ch|) <= d.mem.Length
    modifies d.mem
    ensures code == if Stop(Table(d.g, d.disk), first, ch) >= END32 then 0 else -1
    ensures var base := SlotAt(d.g, slot);
            && base + Times(|ch|, d.g.ClusterBytes()) <= d.mem.Length
            && (code == 0 ==>
                  Loaded(d.mem[..], old(d.mem[..]), base, Seen(d.g, d.disk, old(d.mem[..]), base, ch)))
    ensures code == 0 && AllOnDisk(d.g, |d.disk|, ch) ==>
              Loaded(d.mem[..], old(d.mem[..]), SlotAt(d.g, slot), TrailData(d.g, d.disk, ch))
  {
    hide Reading, Entry, TrailData, ClusterData, Loaded, Times, Stop, Follows, IsTrail, Seen;
    ghost var before := d.mem[..];
    ReadingStarts(d.g, d.disk, first, ch, slot, before);
    StopsOutside(Table(d.g, d.disk), first, ch);
    var cluster := first;
    var count := 0;
    while cluster < END32
      invariant -0x8000_0000 <= cluster < 0x8000_0000
      invariant Reading(d.g, d.disk, first, ch, slot, before, count, cluster, d.mem[..])
      decreases |ch| + 1 - count
    {
      ghost var m, was := d.mem[..], cluster;
      ReadingFits(d.g, d.disk, first, ch, slot, before, count, cluster, m);
      cluster := LoadNext(d, Unsigned(cluster), count + slot);
      if d.g.IsCluster(was) {
        ReadingOn(d.g, d.disk, first, ch, slot, before, count, was, m, d.mem[..]);
        ReadingFits(d.g, d.disk, first, ch, slot, before, count + 1, cluster, d.mem[..]);
      }
      count := count + 1;
      if cluster == BAD32 { return -1; }
      if cluster == -1 { return -1; }
    }
    ReadingFits(d.g, d.disk, first, ch, slot, before, count, cluster, d.mem[..]);
    if AllOnDisk(d.g, |d.disk|, ch) { SeenAll(d.g, d.disk, before, SlotAt(d.g, slot), ch); }
    return 0;
  }

  lemma LoadedNothing(m: seq<byte>, base: nat)
    requires 512 <= base <= |m|
    ensures Loaded(m, m, base, [])
  {
    assert Patch(m, base, []) == m;
  }

  /** An unsigned 32-bit number stored in a signed variable. */
  function Signed(v: nat): (r: int)
    requires v < 0x1_0000_0000
    ensures -0x8000_0000 <= r < 0x8000_0000
  {
    if v >= 0x8000_0000 then v - 0x1_0000_0000 else v
  }

  /** The clusters of the file an entry names. */
  ghost function FileTrail(g: Geometry, disk: Disk, e: seq<byte>): (ch: seq<nat>)
    requires Sound(g, disk) && |e| == 32
    ensures Follows(Table(g, disk), Signed(ClusterOf(e)), ch)
  {
    var c := Signed(ClusterOf(e));
    if g.IsCluster(c) then TrailOf(Table(g, disk), c) else []
  }

  /** Storing a number in a signed variable and passing it on as unsigned gives it back. */
  lemma UnsignedOfSigned(v: nat)
    requires v < 0x1_0000_0000
    ensures Unsigned(Signed(v)) == v && (Signed(v) >= 0 <==> v < 0x8000_0000)
  {
  }

  /** A file whose entry names no cluster has no clusters to load. Loading it succeeds exactly for numbers from
      the end marker on that are not negative in a signed variable, so not for the 0 of an empty file. */
  lemma ClusterlessFile(g: Geometry, disk: Disk, e: seq<byte>)
    requires Sound(g, disk) && |e| == 32 && !g.IsCluster(ClusterOf(e))
    ensures FileTrail(g, disk, e) == []
    ensures Stop(Table(g, disk), Signed(ClusterOf(e)), []) >= END32 <==> 0x0FFF_FFF8 <= ClusterOf(e) < 0x8000_0000
  {
    hide ClusterOf, Acyclic, Table;
    UnsignedOfSigned(ClusterOf(e));
  }

  /** The size check of getFile, in 32-bit arithmetic. */
  predicate Refused(g: Geometry, slot: nat, e: seq<byte>)
    requires |e| == 32
  {
    slot < 1 || (SlotAt(g, slot) + FileSize(e)) % 0x1_0000_0000 > 262144
  }

  /** A trail of `k` clusters from a slot on stays within the transfer window exactly when slot and length
      together are no more than the clusters that the window holds. */
  lemma WithinWindowIff(g: Geometry, slot: nat, k: nat)
    requires g.Valid()
    ensures SlotAt(g, slot + k) <= WINDOW <==> slot + k <= WINDOW / g.ClusterBytes()
  {
    var n, q := g.ClusterBytes(), WINDOW / g.ClusterBytes();
    QuotRemAreDivMod(WINDOW, n);
    QuotRem(WINDOW, n);
    if slot + k < q {
      TimesStep(slot + k, q, n);
    } else if q < slot + k {
      TimesStep(q, slot + k, n);
    }
  }

  /** The size check of getFile keeps the load within the window when the chain is no longer than the
      recorded size says, the window holds a whole number of clusters, and the check does not
      overflow. */
  lemma SizeCheckSuffices(g: Geometry, slot: nat, e: seq<byte>, k: nat)
    requires g.Valid() && |e| == 32 && !Refused(g, slot, e)
    requires SlotAt(g, slot) + FileSize(e) < 0x1_0000_0000
    requires WINDOW % g.ClusterBytes() == 0 && k <= (FileSize(e) + g.ClusterBytes() - 1) / g.ClusterBytes()
    ensures SlotAt(g, slot + k) <= WINDOW
  {
    var n, size := g.ClusterBytes(), FileSize(e);
    QuotRemAreDivMod(WINDOW, n);
    QuotRem(WINDOW, n);
    QuotRemAreDivMod(size + n - 1, n);
    hide Quot, Rem, FileSize, Times;
    CeilingFits(slot, size, n, Quot(WINDOW, n));
    WithinWindowIff(g, slot, k);
  }

  lemma CeilingFits(slot: nat, size: nat, n: nat, q: nat)
    requires n > 0 && Times(slot, n) + size <= Times(q, n)
    ensures slot + Quot(size + n - 1, n) <= q
  {
    var c := Quot(size + n - 1, n);
    QuotRem(size + n - 1, n);
    TimesPlus(slot, c, n);
    if q < slot + c { TimesStep(q, slot + c, n); }
  }

  /** The size check, when its sum does not overflow: the recorded bytes end within the 256 kB from 0x40000
      to 0x80000, and the slot is not the one of FAT lookups. */
  lemma RefusedIff(g: Geometry, slot: nat, e: seq<byte>)
    requires |e| == 32 && SlotAt(g, slot) + FileSize(e) < 0x1_0000_0000
    ensures !Refused(g, slot, e) <==> slot >= 1 && 0x4_0000 + SlotAt(g, slot) + FileSize(e) <= 0x8_0000
  {
  }

  /** A file whose clusters fit the window from the slot on is not refused, and when clusters divide the
      window, no other file is accepted. */
  lemma AcceptedIff(g: Geometry, slot: nat, e: seq<byte>)
    requires g.Valid() && |e| == 32 && SlotAt(g, slot) + FileSize(e) < 0x1_0000_0000 && slot >= 1
    ensures var clusters := (FileSize(e) + g.ClusterBytes() - 1) / g.ClusterBytes();
            && (SlotAt(g, slot + clusters) <= WINDOW ==> !Refused(g, slot, e))
            && (WINDOW % g.ClusterBytes() == 0 && !Refused(g, slot, e) ==> SlotAt(g, slot + clusters) <= WINDOW)
  {
    var n, size := g.ClusterBytes(), FileSize(e);
    var c := (size + n - 1) / n;
    RefusedIff(g, slot, e);
    QuotRemAreDivMod(size + n - 1, n);
    QuotRem(size + n - 1, n);
    SlotPlus(g, slot, c);
    if WINDOW % n == 0 && !Refused(g, slot, e) { SizeCheckSuffices(g, slot, e, c); }
    hide Quot, Rem, FileSize, Times;
  }

  /** getFile: resolve the path, then load the file's clusters from slot `slot` of the transfer memory
      on. The clusters must fit the memory there; the driver checks the recorded size only. */
  method GetFile(d: Driver, path: seq<byte>, slot: nat) returns (code: int, entry: seq<byte>, at: nat)
    requires d.Valid() && Sound(d.g, d.disk)
    requires 3 <= |path| < 0x1_0000 && Short(Components(path[3..]))
    requires var r := Resolve(d.g, d.disk, Components(path[3..]), d.g.root);
             r.Found? && !IsDirectory(r.entry) && !Refused(d.g, slot, r.entry) ==>
               SlotAt(d.g, slot + |FileTrail(d.g, d.disk, r.entry)|) <= d.mem.Length
    modifies d.mem
    ensures var r := Resolve(d.g, d.disk, Components(path[3..]), d.g.root);
            if !r.Found? then code == Code(r)
            else
              && entry == r.entry
              && var ch := FileTrail(d.g, d.disk, entry);
                 if IsDirectory(entry) || Refused(d.g, slot, entry) then code == -3
                 else if Stop(Table(d.g, d.disk), Signed(ClusterOf(entry)), ch) < END32 then code == -1
                 else
                   && code == 0 && at == SlotAt(d.g, slot)
                   && at + Times(|ch|, d.g.ClusterBytes()) <= d.mem.Length
                   && d.mem[at..at + Times(|ch|, d.g.ClusterBytes())] ==
                        Seen(d.g, d.disk, old(d.mem[..]), at, ch)
                   && (AllOnDisk(d.g, |d.disk|, ch) ==>
                         var data := TrailData(d.g, d.disk, ch);
                         at + |data| <= d.mem.Length && d.mem[at..at + |data|] == data)
  {
    hide Resolve, Components, Acyclic, TrailData, ClusterOf, Stop, Follows, Times, Seen, Loaded;
    at := 0;
    code, entry := ResolvePath(d, path);
    if code != 0 { return; }
    if IsDirectory(entry) { return -3, entry, at; }
    if Refused(d.g, slot, entry) { return -3, entry, at; }
    ghost var ch := FileTrail(d.g, d.disk, entry);
    ghost var before := d.mem[..];
    code := ReadChain(d, Signed(ClusterOf(entry)), slot, ch);
    at := SlotAt(d.g, slot);
    SlotsBeyondFirst(d.g, slot);
    BeyondMore(before, old(d.mem[..]), d.g.ClusterBytes(), at);
    SeenFrame(d.g, d.disk, before, old(d.mem[..]), at, ch);
    if code == 0 {
      LoadedHolds(d.mem[..], before, at, Seen(d.g, d.disk, before, at, ch));
      if AllOnDisk(d.g, |d.disk|, ch) { SeenAll(d.g, d.disk, before, at, ch); }
    }
  }

  lemma SlotsBeyondFirst(g: Geometry, slot: nat)
    requires slot >= 1
    ensures g.ClusterBytes() <= SlotAt(g, slot)
  {
    assert SlotAt(g, slot) == g.ClusterBytes() + SlotAt(g, slot - 1);
  }
}
