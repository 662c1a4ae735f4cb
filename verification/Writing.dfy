/** Writing a file's data: the loop of putFile. */
module Writing {
  import opened Arith
  import opened Bytes
  import opened Volume
  import opened Chains
  import opened Driver
  import opened Directory
  import opened Files

  // ---------------------------------------------------------------------
  // Bookkeeping of the loop, for cluster size `n`
  // ---------------------------------------------------------------------

  /** The loop advances by one more than the cluster size; with exactly a cluster left, the unsigned
      count of remaining bytes would go below 0. */
  predicate NoWrap(size: nat, n: nat) {
    if size <= n then size != n else NoWrap(size - (n + 1), n)
  }

  /** Turns of the loop, one cluster each. */
  function Turns(size: nat, n: nat): nat {
    if size == 0 then 0 else if size <= n then 1 else 1 + Turns(size - (n + 1), n)
  }

  /** What reaches the disk: each turn consumes a byte that its cluster has no room for. */
  function Kept(contents: seq<byte>, n: nat): (r: seq<byte>)
    ensures |r| <= |contents|
  {
    if |contents| <= n then contents else contents[..n] + Kept(contents[n + 1..], n)
  }

  lemma {:induction false} NoWrapRem(size: nat, n: nat)
    ensures NoWrap(size, n) <==> Rem(size, n + 1) != n
    decreases size
  {
    if size > n { NoWrapRem(size - (n + 1), n); }
  }

  /** The remaining count stays a count exactly when the size is not n modulo n + 1. */
  lemma NoWrapIff(size: nat, n: nat)
    ensures NoWrap(size, n) <==> size % (n + 1) != n
  {
    NoWrapRem(size, n);
    QuotRemAreDivMod(size, n + 1);
  }

  lemma {:induction false} TurnsQuot(size: nat, n: nat)
    ensures Turns(size, n) == Quot(size + n, n + 1)
    decreases size
  {
    if size > n { TurnsQuot(size - (n + 1), n); }
  }

  /** The number of clusters written is the size divided by cluster size plus one, rounded up. */
  lemma TurnsIsCeiling(size: nat, n: nat)
    ensures Turns(size, n) == (size + n) / (n + 1)
  {
    TurnsQuot(size, n);
    QuotRemAreDivMod(size + n, n + 1);
  }

  lemma {:induction false} KeptLengthQuot(contents: seq<byte>, n: nat)
    ensures |Kept(contents, n)| == |contents| - Quot(|contents|, n + 1)
    decreases |contents|
  {
    if |contents| > n { KeptLengthQuot(contents[n + 1..], n); }
  }

  /** One byte is missing for every n + 1 bytes of the file. */
  lemma KeptLength(contents: seq<byte>, n: nat)
    ensures |Kept(contents, n)| == |contents| - |contents| / (n + 1)
  {
    KeptLengthQuot(contents, n);
    QuotRemAreDivMod(|contents|, n + 1);
  }

  /** Of the files that the loop gets through, it stores exactly those whole that are shorter than a
      cluster. */
  lemma KeptWholeIff(contents: seq<byte>, n: nat)
    requires |contents| % (n + 1) != n
    ensures Kept(contents, n) == contents <==> |contents| < n
  {
    KeptLengthQuot(contents, n);
    NoWrapIff(|contents|, n);
  }

  /** Byte by byte: of every n + 1 bytes of the file the last one is missing. */
  lemma {:induction false} KeptAt(contents: seq<byte>, n: nat, i: nat)
    requires n > 0 && i < |Kept(contents, n)|
    ensures i + Quot(i, n) < |contents| && Kept(contents, n)[i] == contents[i + Quot(i, n)]
    decreases |contents|
  {
    if |contents| > n && i >= n { KeptAt(contents[n + 1..], n, i - n); }
  }

  // ---------------------------------------------------------------------
  // The calls of clusterWrite
  // ---------------------------------------------------------------------

  /** How much a turn writes when `left` bytes are left. */
  function Chunk(left: nat, n: nat): nat {
    if left >= n then n + 1 else left
  }

  /** The call that a turn makes. */
  ghost function TurnCall(contents: seq<byte>, left: nat, n: nat, cluster: nat): Call
    requires left <= |contents|
  {
    if Chunk(left, n) <= left then Call(cluster, contents[|contents| - left..][..Chunk(left, n)]) else Call(cluster, [])
  }

  lemma CallsAppend(a: seq<Call>, b: seq<Call>, c: Call)
    ensures (a + b) + [c] == a + (b + [c])
  {
  }

  /** What the calls wrote, one after another. */
  ghost function Joined(log: seq<Call>): seq<byte> {
    if |log| == 0 then [] else Joined(log[..|log| - 1]) + Last(log).contents
  }

  /** The calls write the file in order, n + 1 bytes each but for the last, up to its last `left` bytes,
      and as many turns are still to come as those bytes take. */
  ghost predicate Covers(log: seq<Call>, contents: seq<byte>, n: nat, left: nat) {
    && left <= |contents| && NoWrap(left, n)
    && |log| + Turns(left, n) == Turns(|contents|, n)
    && Joined(log) == contents[..|contents| - left]
    && forall k :: 0 <= k < |log| && (k + 1 < |log| || left > 0) ==> |log[k].contents| == n + 1
  }

  lemma CoversNothing(contents: seq<byte>, n: nat)
    requires |contents| % (n + 1) != n
    ensures Covers([], contents, n, |contents|)
  {
    NoWrapIff(|contents|, n);
  }

  lemma JoinedSnoc(log: seq<Call>, c: Call)
    ensures Joined(log + [c]) == Joined(log) + c.contents
  {
    assert (log + [c])[..|log|] == log;
  }

  lemma LeftAfter(left: nat, n: nat)
    requires left > 0 && NoWrap(left, n)
    ensures Chunk(left, n) <= left && left != n && NoWrap(left - Chunk(left, n), n)
    ensures Turns(left, n) == 1 + Turns(left - Chunk(left, n), n)
    ensures left - Chunk(left, n) > 0 ==> Chunk(left, n) == n + 1
  {
  }

  /** One more call. */
  lemma CoversMore(log: seq<Call>, contents: seq<byte>, n: nat, left: nat, cluster: nat)
    requires Covers(log, contents, n, left) && left > 0
    ensures Chunk(left, n) <= left && left != n
    ensures Covers(log + [TurnCall(contents, left, n, cluster)], contents, n, left - Chunk(left, n))
    ensures TurnCall(contents, left, n, cluster).cluster == cluster
  {
    LeftAfter(left, n);
    var chunk := contents[|contents| - left..][..Chunk(left, n)];
    JoinedSnoc(log, Call(cluster, chunk));
    hide NoWrap, Turns, Joined;
    assert contents[..|contents| - left] + chunk == contents[..|contents| - (left - |chunk|)];
  }

  // ---------------------------------------------------------------------
  // State of the loop
  // ---------------------------------------------------------------------

  /** A FAT32 volume on which FAT and data do not overlap and every entry is visible. */
  ghost predicate Writable(g: Geometry) {
    g.Valid() && g.fatType == 32 && g.AllVisible() && g.FatBelowData()
  }

  /** The first cluster is one that the FAT says is in use: linked, at the end of a chain, or bad. */
  ghost predicate InUse(g: Geometry, disk: Disk, first: nat) {
    Writable(g) && g.IsCluster(first) && Table(g, disk)[first] > 0
  }

  /** `ch` has grown from its first cluster by free clusters, and no other cluster has changed. */
  ghost predicate GrownTo(g: Geometry, before: Disk, after: Disk, ch: seq<nat>) {
    && Writable(g) && |after| == |before|
    && GrewChain(Table(g, before), Table(g, after), ch)
    && (forall c: nat {:trigger SameData(g, before, after, c)} :: g.OnDisk(|before|, c) && c !in ch ==>
          SameData(g, before, after, c))
  }

  ghost predicate SameData(g: Geometry, before: Disk, after: Disk, c: nat)
    requires g.Valid() && |after| == |before| && g.OnDisk(|before|, c)
  {
    ClusterData(g, after, c) == ClusterData(g, before, c)
  }

  lemma GrownStarts(g: Geometry, disk: Disk, first: nat)
    requires InUse(g, disk, first)
    ensures GrownTo(g, disk, disk, [first])
  {
    hide Entry;
  }

  /** Writing a cluster of the chain keeps all that. */
  lemma GrownWrite(g: Geometry, before: Disk, disk: Disk, ch: seq<nat>, c: nat, data: seq<byte>)
    requires GrownTo(g, before, disk, ch) && c in ch && g.OnDisk(|disk|, c) && |data| == g.ClusterBytes()
    ensures GrownTo(g, before, WriteCluster(g, disk, c, data), ch)
    ensures Table(g, WriteCluster(g, disk, c, data)) == Table(g, disk)
  {
    var after := WriteCluster(g, disk, c, data);
    WriteClusterKeepsTable(g, disk, c, data);
    hide Entry, Store, Span;
    forall x: nat | g.OnDisk(|disk|, x) && x !in ch
      ensures SameData(g, before, after, x)
    {
      assert SameData(g, before, disk, x);
      WriteClusterData(g, disk, c, data, x);
    }
  }

  lemma ExtendKeepsData(g: Geometry, disk: Disk, f: nat, tail: nat, c: nat)
    requires Writable(g) && g.OnDisk(|disk|, c) && f < g.total
    ensures SameData(g, disk, WriteEntry(g, WriteEntry(g, disk, f, END32), tail, f), c)
  {
    WriteKeepsData(g, disk, f, END32, c);
    WriteKeepsData(g, WriteEntry(g, disk, f, END32), tail, f, c);
  }

  /** So does claiming and linking the first free cluster. */
  lemma GrownExtend(g: Geometry, before: Disk, disk: Disk, ch: seq<nat>, f: nat)
    requires GrownTo(g, before, disk, ch)
    requires f == FirstFreeFrom(Table(g, disk), 2) < g.total
    ensures var m := WriteEntry(g, disk, f, END32);
            var after := WriteEntry(g, m, Last(ch), f);
            && Entry(g, m, Last(ch)) == Entry(g, disk, Last(ch)) != -1
            && GrownTo(g, before, after, ch + [f])
            && Table(g, after) == After(Table(g, disk), Relink(Last(ch)))
  {
    var t, tail := Table(g, disk), Last(ch);
    GrewChainLinks(Table(g, before), t, ch);
    assert Entry(g, disk, tail) == t[tail] > 0;
    ExtendOnDisk(g, disk, tail);
    GrewChainOn(Table(g, before), t, ch);
    hide Entry, WriteEntry, GrewChain, After, ClusterData, IsTrail;
    var after := WriteEntry(g, WriteEntry(g, disk, f, END32), tail, f);
    forall x: nat | g.OnDisk(|disk|, x) && x !in ch + [f]
      ensures SameData(g, before, after, x)
    {
      assert SameData(g, before, disk, x);
      ExtendKeepsData(g, disk, f, tail, x);
    }
  }

  /** Free clusters whose data is on the partition. */
  ghost function FreeOnDisk(g: Geometry, sectors: nat, t: Fat): set<nat> {
    set c: nat | c in Free(t) && g.OnDisk(sectors, c)
  }

  /** The least free cluster is on the partition when any free cluster is, and claiming it uses one. */
  lemma ExtendUsesOne(g: Geometry, sectors: nat, t: Fat, tail: nat)
    requires |t| == g.total && !Full(t) && InTable(t, tail) && t[tail] > 0
    ensures var f := FirstFreeFrom(t, 2);
            if g.OnDisk(sectors, f)
            then |FreeOnDisk(g, sectors, After(t, Relink(tail)))| == |FreeOnDisk(g, sectors, t)| - 1
            else FreeOnDisk(g, sectors, t) == {}
  {
    var f := FirstFreeFrom(t, 2);
    FirstFreeIsLeast(t, 2);
    if g.OnDisk(sectors, f) {
      assert FreeOnDisk(g, sectors, After(t, Relink(tail))) == FreeOnDisk(g, sectors, t) - {f};
    } else {
      forall c | c in FreeOnDisk(g, sectors, t) ensures false { OnDiskDown(g, sectors, f, c); }
    }
  }

  // ---------------------------------------------------------------------
  // Data on the chain
  // ---------------------------------------------------------------------

  lemma {:induction false} TrailDataFrame(g: Geometry, d: Disk, e: Disk, ch: seq<nat>)
    requires g.Valid() && |d| == |e| && AllOnDisk(g, |d|, ch)
    requires forall i :: 0 <= i < |ch| ==> ClusterData(g, d, ch[i]) == ClusterData(g, e, ch[i])
    ensures TrailData(g, d, ch) == TrailData(g, e, ch)
    decreases |ch|
  {
    hide ClusterData, Times;
    if |ch| > 0 { TrailDataFrame(g, d, e, ch[1..]); }
  }

  /** The clusters `ch` hold what the turns so far kept; `left` bytes are still to come. */
  ghost predicate Written(g: Geometry, disk: Disk, ch: seq<nat>, contents: seq<byte>, left: nat) {
    && g.Valid() && AllOnDisk(g, |disk|, ch) && left <= |contents|
    && TrailData(g, disk, ch) + Kept(contents[|contents| - left..], g.ClusterBytes())
         == Kept(contents, g.ClusterBytes())
  }

  /** Writing one cluster more leaves the clusters before it as they were. */
  lemma WriteNext(g: Geometry, disk: Disk, front: seq<nat>, c: nat, data: seq<byte>)
    requires g.Valid() && |data| == g.ClusterBytes()
    requires AllOnDisk(g, |disk|, front) && g.OnDisk(|disk|, c) && c !in front
    ensures TrailData(g, WriteCluster(g, disk, c, data), front + [c]) == TrailData(g, disk, front) + data
  {
    var after := WriteCluster(g, disk, c, data);
    hide Span, Store, Times;
    forall i | 0 <= i < |front|
      ensures ClusterData(g, after, front[i]) == ClusterData(g, disk, front[i])
    {
      WriteClusterData(g, disk, c, data, front[i]);
    }
    TrailDataFrame(g, after, disk, front);
    WriteClusterData(g, disk, c, data, c);
    TrailDataSnoc(g, after, front, c);
  }

  /** A turn that fills its cluster. */
  lemma FullTurn(g: Geometry, disk: Disk, front: seq<nat>, c: nat, contents: seq<byte>, left: nat, data: seq<byte>)
    requires Written(g, disk, front, contents, left) && g.OnDisk(|disk|, c) && c !in front
    requires left > g.ClusterBytes() == |data|
    requires data == contents[|contents| - left..][..|data|]
    ensures Written(g, WriteCluster(g, disk, c, data), front + [c], contents, left - (|data| + 1))
  {
    WriteNext(g, disk, front, c, data);
    var rest := contents[|contents| - left..];
    assert rest[|data| + 1..] == contents[|contents| - (left - (|data| + 1))..];
    assert Kept(rest, |data|) == data + Kept(rest[|data| + 1..], |data|);
    hide TrailData, Kept, ClusterData, WriteCluster, Times;
    ConcatThree(TrailData(g, disk, front), data, Kept(rest[|data| + 1..], |data|));
  }

  lemma ConcatThree(a: seq<byte>, b: seq<byte>, c: seq<byte>)
    ensures a + (b + c) == (a + b) + c
  {
  }

  /** The turn that ends the file part-way through a cluster. */
  lemma LastTurn(g: Geometry, disk: Disk, front: seq<nat>, c: nat, contents: seq<byte>, left: nat, data: seq<byte>)
    requires Written(g, disk, front, contents, left) && g.OnDisk(|disk|, c) && c !in front
    requires left <= g.ClusterBytes() == |data|
    requires data[..left] == contents[|contents| - left..]
    ensures Kept(contents, |data|) <= TrailData(g, WriteCluster(g, disk, c, data), front + [c])
  {
    WriteNext(g, disk, front, c, data);
    assert Kept(data[..left], |data|) == data[..left];
    hide TrailData, Kept, ClusterData, WriteCluster, Times;
    PrefixConcat(TrailData(g, disk, front), data, left);
  }

  lemma PrefixConcat(a: seq<byte>, b: seq<byte>, k: nat)
    requires k <= |b|
    ensures a + b[..k] <= a + b
  {
  }

  lemma PatchWindow(m: seq<byte>, at: nat, t: seq<byte>, n: nat)
    requires at + |t| <= |m| && at + n <= |m|
    ensures var k := Least(|t|, n); Patch(m, at, t)[at..at + n][..k] == t[..k]
  {
    var p, k := Patch(m, at, t), Least(|t|, n);
    assert p[at..at + n][..k] == p[at..at + k];
    assert p[at..at + k] == p[at..at + |t|][..k];
    assert p[at..at + |t|] == t;
  }

  /** FAT writes leave the data of the chain alone. */
  lemma WrittenExtend(g: Geometry, disk: Disk, ch: seq<nat>, contents: seq<byte>, left: nat, f: nat, tail: nat)
    requires Writable(g) && f < g.total && Written(g, disk, ch, contents, left)
    ensures Written(g, WriteEntry(g, WriteEntry(g, disk, f, END32), tail, f), ch, contents, left)
  {
    var after := WriteEntry(g, WriteEntry(g, disk, f, END32), tail, f);
    hide Entry, WriteEntry, ClusterData, Kept, Times, Quot, Rem;
    forall i | 0 <= i < |ch|
      ensures ClusterData(g, after, ch[i]) == ClusterData(g, disk, ch[i])
    {
      ExtendKeepsData(g, disk, f, tail, ch[i]);
      assert SameData(g, disk, after, ch[i]);
    }
    TrailDataFrame(g, after, disk, ch);
  }

  // ---------------------------------------------------------------------
  // The loop
  // ---------------------------------------------------------------------

  function Least(a: nat, b: nat): nat {
    if a < b then a else b
  }

  /** clusterWrite through slot 1: the cluster receives the chunk, as far as it fits, and otherwise
      what the slot held before. */
  method WriteChunk(d: Driver, chunk: seq<byte>, c: nat) returns (code: int, ghost data: seq<byte>)
    requires d.Valid() && |chunk| <= d.g.ClusterBytes() + 1
    modifies d`disk, d`calls, d.mem
    ensures d.Valid() && code == if d.g.OnDisk(|d.disk|, c) then 0 else -1
    ensures |d.disk| == |old(d.disk)| && d.calls == old(d.calls) + [Call(c, chunk)]
    ensures code == -1 ==> d.disk == old(d.disk)
    ensures code == 0 ==>
              && |data| == d.g.ClusterBytes()
              && d.disk == WriteCluster(d.g, old(d.disk), c, data)
              && var k := Least(|chunk|, |data|); data[..k] == chunk[..k]
  {
    hide Times, Quot, Rem, Store, Span, Patch, WriteCluster, SlotAt;
    SlotOne(d.g);
    var at, n := SlotAt(d.g, 1), d.g.ClusterBytes();
    PatchWindow(d.mem[..], at, chunk, n);
    code := d.ClusterWrite(chunk, 1, c);
    WindowOf(d.mem, at, n);
    data := d.mem[at..at + n];
  }

  lemma WindowOf(mem: array<byte>, at: nat, n: nat)
    requires at + n <= mem.Length
    ensures mem[at..at + n] == mem[..][at..at + n]
  {
  }

  lemma SlotOne(g: Geometry)
    ensures SlotAt(g, 1) == g.ClusterBytes()
  {
    assert SlotAt(g, 0) == 0;
  }

  lemma LastIsNew(g: Geometry, before: Disk, disk: Disk, ch: seq<nat>)
    requires GrownTo(g, before, disk, ch)
    ensures |ch| > 0 && g.IsCluster(Last(ch)) && Last(ch) in ch && Table(g, disk)[Last(ch)] > 0
    ensures Last(ch) !in ch[..|ch| - 1] && ch == ch[..|ch| - 1] + [Last(ch)]
  {
    hide Entry;
    if |ch| > 1 { TrailDistinct(Table(g, disk), ch); }
  }

  /** How many free clusters on the partition there were at the start. */
  ghost function Room(g: Geometry, before: Disk): nat
    requires g.Valid()
  {
    |FreeOnDisk(g, |before|, Table(g, before))|
  }

  /** At the head of the loop: the last cluster of `ch` is linked but not written yet. It is off the
      partition only if no free cluster on the partition was left. */
  ghost predicate Head(g: Geometry, before: Disk, disk: Disk, ch: seq<nat>, contents: seq<byte>, left: nat) {
    && GrownTo(g, before, disk, ch) && |ch| > 0
    && 0 < left <= |contents| && NoWrap(left, g.ClusterBytes())
    && Written(g, disk, ch[..|ch| - 1], contents, left)
    && |ch| - 1 + Turns(left, g.ClusterBytes()) == Turns(|contents|, g.ClusterBytes())
    && (if g.OnDisk(|before|, Last(ch)) then Room(g, disk) + |ch| - 1 == Room(g, before)
        else |ch| > 1 ==> Room(g, before) == |ch| - 2)
  }

  /** After a turn that filled its cluster. */
  ghost predicate Filled(g: Geometry, before: Disk, disk: Disk, ch: seq<nat>, contents: seq<byte>, left: nat) {
    && GrownTo(g, before, disk, ch) && |ch| > 0
    && left <= |contents| && NoWrap(left, g.ClusterBytes())
    && Written(g, disk, ch, contents, left)
    && |ch| + Turns(left, g.ClusterBytes()) == Turns(|contents|, g.ClusterBytes())
    && Room(g, disk) + |ch| - 1 == Room(g, before)
  }

  /** The file is on disk. */
  ghost predicate Complete(g: Geometry, before: Disk, disk: Disk, ch: seq<nat>, contents: seq<byte>) {
    && GrownTo(g, before, disk, ch) && AllOnDisk(g, |disk|, ch)
    && |ch| == Turns(|contents|, g.ClusterBytes())
    && Kept(contents, g.ClusterBytes()) <= TrailData(g, disk, ch)
    && Room(g, disk) + |ch| - 1 == Room(g, before)
  }

  /** There is somewhere to put all the data. */
  ghost predicate Fits(g: Geometry, before: Disk, first: nat, contents: seq<byte>)
    requires g.Valid()
  {
    g.OnDisk(|before|, first) && Turns(|contents|, g.ClusterBytes()) <= Room(g, before) + 1
  }

  lemma HeadStarts(g: Geometry, disk: Disk, first: nat, contents: seq<byte>)
    requires InUse(g, disk, first)
    requires contents != [] && |contents| % (g.ClusterBytes() + 1) != g.ClusterBytes()
    ensures Head(g, disk, disk, [first], contents, |contents|)
  {
    NoWrapIff(|contents|, g.ClusterBytes());
    GrownStarts(g, disk, first);
    hide GrownTo, Entry, Room;
    assert contents[0..] == contents && [first][..0] == [];
    assert TrailData(g, disk, []) == [];
  }

  lemma TurnFills(g: Geometry, before: Disk, disk: Disk, ch: seq<nat>, contents: seq<byte>, left: nat, data: seq<byte>)
    requires Head(g, before, disk, ch, contents, left) && g.OnDisk(|disk|, Last(ch))
    requires left > g.ClusterBytes() == |data|
    requires data == contents[|contents| - left..][..|data|]
    ensures GrownTo(g, before, WriteCluster(g, disk, Last(ch), data), ch)
    ensures Filled(g, before, WriteCluster(g, disk, Last(ch), data), ch, contents, left - (|data| + 1))
  {
    LastIsNew(g, before, disk, ch);
    GrownWrite(g, before, disk, ch, Last(ch), data);
    FullTurn(g, disk, ch[..|ch| - 1], Last(ch), contents, left, data);
    hide Written, WriteCluster, GrewChain, Table;
  }

  lemma TurnCompletes(g: Geometry, before: Disk, disk: Disk, ch: seq<nat>, contents: seq<byte>, left: nat,
                      data: seq<byte>)
    requires Head(g, before, disk, ch, contents, left) && g.OnDisk(|disk|, Last(ch))
    requires left <= g.ClusterBytes() == |data|
    requires data[..left] == contents[|contents| - left..]
    ensures GrownTo(g, before, WriteCluster(g, disk, Last(ch), data), ch)
    ensures Complete(g, before, WriteCluster(g, disk, Last(ch), data), ch, contents)
  {
    hide WriteCluster, GrewChain, TrailData, Kept, Entry, ClusterData, FreeOnDisk, SameData;
    LastIsNew(g, before, disk, ch);
    GrownWrite(g, before, disk, ch, Last(ch), data);
    LastTurn(g, disk, ch[..|ch| - 1], Last(ch), contents, left, data);
    assert AllOnDisk(g, |disk|, ch);
  }

  lemma FilledCompletes(g: Geometry, before: Disk, disk: Disk, ch: seq<nat>, contents: seq<byte>)
    requires Filled(g, before, disk, ch, contents, 0)
    ensures Complete(g, before, disk, ch, contents)
  {
    hide GrownTo, Room;
    assert contents[|contents|..] == [];
    assert Kept([], g.ClusterBytes()) == [];
    hide TrailData, Kept;
    assert TrailData(g, disk, ch) + [] == TrailData(g, disk, ch);
  }

  lemma FilledExtends(g: Geometry, before: Disk, disk: Disk, ch: seq<nat>, contents: seq<byte>, left: nat, f: nat)
    requires Filled(g, before, disk, ch, contents, left) && left > 0
    requires f == FirstFreeFrom(Table(g, disk), 2) < g.total
    ensures var m := WriteEntry(g, disk, f, END32);
            && Entry(g, m, Last(ch)) != -1
            && GrownTo(g, before, WriteEntry(g, m, Last(ch), f), ch + [f])
            && Head(g, before, WriteEntry(g, m, Last(ch), f), ch + [f], contents, left)
  {
    var t := Table(g, disk);
    LastIsNew(g, before, disk, ch);
    GrownExtend(g, before, disk, ch, f);
    WrittenExtend(g, disk, ch, contents, left, f, Last(ch));
    ExtendUsesOne(g, |disk|, t, Last(ch));
    assert (ch + [f])[..|ch + [f]| - 1] == ch && Last(ch + [f]) == f;
    hide GrownTo, Written, Entry, WriteEntry, After, FreeOnDisk, FirstFreeFrom;
  }

  lemma TurnsPositive(size: nat, n: nat)
    requires size > 0
    ensures Turns(size, n) >= 1
  {
  }

  /** A full volume at this point means there were too few free clusters to begin with. */
  lemma FilledStuck(g: Geometry, before: Disk, disk: Disk, ch: seq<nat>, contents: seq<byte>, left: nat)
    requires Filled(g, before, disk, ch, contents, left) && left > 0
    requires FirstFreeFrom(Table(g, disk), 2) >= g.total
    ensures !Fits(g, before, ch[0], contents)
  {
    FirstFreeIsLeast(Table(g, disk), 2);
    TurnsPositive(left, g.ClusterBytes());
    hide Written, Turns, Entry, GrownTo;
    assert FreeOnDisk(g, |disk|, Table(g, disk)) == {};
  }

  /** So does a claimed cluster that is not on the partition. */
  lemma HeadStuck(g: Geometry, before: Disk, disk: Disk, ch: seq<nat>, contents: seq<byte>, left: nat)
    requires Head(g, before, disk, ch, contents, left) && !g.OnDisk(|disk|, Last(ch))
    ensures !Fits(g, before, ch[0], contents)
  {
    TurnsPositive(left, g.ClusterBytes());
    hide Written, Turns, Entry, GrewChain, Room;
  }

  lemma CompleteFits(g: Geometry, before: Disk, disk: Disk, ch: seq<nat>, contents: seq<byte>)
    requires Complete(g, before, disk, ch, contents)
    ensures |ch| > 0 && Fits(g, before, ch[0], contents)
  {
  }

  lemma HeadFacts(g: Geometry, before: Disk, disk: Disk, ch: seq<nat>, contents: seq<byte>, left: nat)
    requires Head(g, before, disk, ch, contents, left)
    ensures Writable(g) && |disk| == |before| && |ch| > 0 && g.IsCluster(Last(ch))
    ensures 0 < left <= |contents| && left != g.ClusterBytes()
    ensures GrownTo(g, before, disk, ch)
  {
    LastIsNew(g, before, disk, ch);
  }

  lemma TurnEffect(g: Geometry, before: Disk, disk: Disk, ch: seq<nat>, contents: seq<byte>, left: nat, size: nat,
                   data: seq<byte>)
    requires Head(g, before, disk, ch, contents, left) && |data| == g.ClusterBytes()
    requires g.OnDisk(|disk|, Last(ch))
    requires size == if left >= |data| then |data| + 1 else left
    requires size <= left <= |contents|
    requires var k := Least(size, |data|); data[..k] == contents[|contents| - left..][..size][..k]
    ensures Writable(g)
    ensures var after := WriteCluster(g, disk, Last(ch), data);
            && GrownTo(g, before, after, ch)
            && (left > size ==> Filled(g, before, after, ch, contents, left - size))
            && (left == size ==> Complete(g, before, after, ch, contents))
  {
    hide Head, Filled, Complete, GrownTo, Writable, WriteCluster;
    HeadFacts(g, before, disk, ch, contents, left);
    var rest := contents[|contents| - left..];
    if size == |data| + 1 {
      assert rest[..size][..|data|] == rest[..|data|] && data[..|data|] == data;
      TurnFills(g, before, disk, ch, contents, left, data);
      if left == size { FilledCompletes(g, before, WriteCluster(g, disk, Last(ch), data), ch, contents); }
    } else {
      assert rest[..left][..left] == rest;
      TurnCompletes(g, before, disk, ch, contents, left, data);
    }
  }

  /** The cluster holds the chunk, as far as it fits. */
  ghost predicate Holds(g: Geometry, disk: Disk, c: nat, chunk: seq<byte>) {
    && g.Valid() && g.OnDisk(|disk|, c)
    && var k := Least(|chunk|, g.ClusterBytes()); ClusterData(g, disk, c)[..k] == chunk[..k]
  }

  lemma ChunkHeld(g: Geometry, disk: Disk, c: nat, data: seq<byte>, chunk: seq<byte>)
    requires g.Valid() && g.OnDisk(|disk|, c) && |data| == g.ClusterBytes()
    requires var k := Least(|chunk|, |data|); data[..k] == chunk[..k]
    ensures Holds(g, WriteCluster(g, disk, c, data), c, chunk)
  {
    hide Store, Span;
    WriteClusterData(g, disk, c, data, c);
  }

  /** One turn of the loop up to the point where it needs another cluster. `ok` says that the loop
      started at a cluster in use on a volume whose FAT is all visible. */
  method WriteTurn(d: Driver, contents: seq<byte>, left: nat, active: nat, ghost ok: bool, ghost before: Disk,
                   ghost ch: seq<nat>)
    returns (code: int, rest: nat)
    requires d.Valid() && 0 < left <= |contents| && left != d.g.ClusterBytes()
    requires ok ==> Head(d.g, before, d.disk, ch, contents, left) && Last(ch) == active
    modifies d`disk, d`calls, d.mem
    ensures d.Valid() && |d.disk| == |old(d.disk)| && code == if d.g.OnDisk(|d.disk|, active) then 0 else -1
    ensures code == -1 ==> d.disk == old(d.disk)
    ensures Chunk(left, d.g.ClusterBytes()) <= left
    ensures d.calls == old(d.calls) + [TurnCall(contents, left, d.g.ClusterBytes(), active)]
    ensures code == 0 ==>
              && d.g.IsCluster(active) && rest == left - Chunk(left, d.g.ClusterBytes())
              && Holds(d.g, d.disk, active, TurnCall(contents, left, d.g.ClusterBytes(), active).contents)
    ensures ok ==> GrownTo(d.g, before, d.disk, ch) && |ch| > 0
    ensures ok && code == -1 ==> !Fits(d.g, before, ch[0], contents)
    ensures ok && code == 0 && rest > 0 ==> Filled(d.g, before, d.disk, ch, contents, rest)
    ensures ok && code == 0 && rest == 0 ==> Complete(d.g, before, d.disk, ch, contents)
  {
    hide Head, Filled, Complete, GrownTo, Writable, WriteCluster, Fits, Holds, ClusterData;
    var size := Chunk(left, d.g.ClusterBytes());
    ghost var was := d.disk;
    if ok { HeadFacts(d.g, before, was, ch, contents, left); }
    rest := left - size;
    ghost var data;
    code, data := WriteChunk(d, contents[|contents| - left..][..size], active);
    if code != 0 {
      if ok { HeadStuck(d.g, before, was, ch, contents, left); }
      return;
    }
    ChunkHeld(d.g, was, active, data, contents[|contents| - left..][..size]);
    if ok { TurnEffect(d.g, before, was, ch, contents, left, size, data); }
  }

  lemma FilledFacts(g: Geometry, before: Disk, disk: Disk, ch: seq<nat>, contents: seq<byte>, left: nat)
    requires Filled(g, before, disk, ch, contents, left)
    ensures Writable(g) && |ch| > 0 && GrownTo(g, before, disk, ch)
  {
  }

  lemma LinkPossible(g: Geometry, before: Disk, disk: Disk, ch: seq<nat>, contents: seq<byte>, left: nat)
    requires Filled(g, before, disk, ch, contents, left) && left > 0
    ensures |ch| > 0
    ensures var f := FirstFreeFrom(Table(g, disk), 2);
            if f < g.total then
              var m := WriteEntry(g, disk, f, END32);
              && Entry(g, m, Last(ch)) != -1
              && GrownTo(g, before, WriteEntry(g, m, Last(ch), f), ch + [f])
              && Head(g, before, WriteEntry(g, m, Last(ch), f), ch + [f], contents, left)
            else !Fits(g, before, ch[0], contents)
  {
    hide Filled, Head, GrownTo, Entry, WriteEntry, FirstFreeFrom, Fits;
    FilledFacts(g, before, disk, ch, contents, left);
    var f := FirstFreeFrom(Table(g, disk), 2);
    if f < g.total {
      FilledExtends(g, before, disk, ch, contents, left, f);
    } else {
      FilledStuck(g, before, disk, ch, contents, left);
    }
  }

  /** The rest of the turn: claim a cluster and link it to the one just written. */
  method LinkNext(d: Driver, active: nat, ghost ok: bool, ghost before: Disk, ghost ch: seq<nat>,
                  ghost contents: seq<byte>, ghost left: nat)
    returns (code: int, next: nat)
    requires d.Valid() && d.g.fatType == 32
    requires ok ==> Filled(d.g, before, d.disk, ch, contents, left) && left > 0 && Last(ch) == active
    modifies d`disk, d.mem
    ensures d.Valid() && |d.disk| == |old(d.disk)| && code in {0, -1}
    ensures ok && code == 0 ==> GrownTo(d.g, before, d.disk, ch + [next])
    ensures ok && code == 0 ==> Head(d.g, before, d.disk, ch + [next], contents, left)
    ensures ok && code == -1 ==> d.disk == old(d.disk) && |ch| > 0 && !Fits(d.g, before, ch[0], contents)
  {
    hide Filled, Head, GrownTo, Entry, WriteEntry, FirstFreeFrom, Fits, Table;
    if ok { LinkPossible(d.g, before, d.disk, ch, contents, left); }
    next := d.AllocateFree();
    if next == BAD32 { return -1, next; }
    code := d.FatWrite(active, next);
  }

  /** The write loop of putFile, from any first cluster on any FAT32 volume: the remaining count never
      goes below 0, the calls of clusterWrite cover the contents in order, and the loop succeeds only
      after as many calls as the contents take.

      From a cluster in use, on a volume whose FAT is all visible, it succeeds exactly when enough
      clusters on the partition are free, uses no more than it needs, changes no other cluster, and
      leaves on the chain the contents without the bytes that the loop skips. */
  method PutData(d: Driver, contents: seq<byte>, first: nat)
    returns (code: int, ghost ch: seq<nat>, ghost log: seq<Call>)
    requires d.Valid() && d.g.fatType == 32
    requires |contents| < 0x1_0000_0000 && |contents| % (d.g.ClusterBytes() + 1) != d.g.ClusterBytes()
    modifies d`disk, d`calls, d.mem
    ensures d.Valid() && |d.disk| == |old(d.disk)| && code in {0, -1}
    ensures d.calls == old(d.calls) + log
    ensures exists left: nat :: Covers(log, contents, d.g.ClusterBytes(), left) && (code == 0 ==> left == 0)
    ensures code == 0 ==> |log| == Turns(|contents|, d.g.ClusterBytes())
    ensures |log| > 0 ==> log[0].cluster == first
    ensures code == 0 && contents != [] ==>
              |log| > 0 && Holds(d.g, d.disk, Last(log).cluster, Last(log).contents)
    ensures contents == [] ==> code == 0 && d.disk == old(d.disk)
    ensures contents != [] && !d.g.OnDisk(|d.disk|, first) ==> code == -1 && d.disk == old(d.disk)
    ensures InUse(d.g, old(d.disk), first) ==>
              && GrownTo(d.g, old(d.disk), d.disk, ch) && |ch| > 0 && ch[0] == first
              && code == (if contents == [] || Fits(d.g, old(d.disk), first, contents) then 0 else -1)
              && (contents != [] && code == 0 ==> Complete(d.g, old(d.disk), d.disk, ch, contents))
  {
    hide Entry, Head, Filled, Complete, GrownTo, Writable, Fits, Covers, Turns, InUse, Holds, TurnCall;
    var n := d.g.ClusterBytes();
    ghost var before, start, ok := d.disk, d.calls, InUse(d.g, d.disk, first);
    ch, log := [first], [];
    var active, left := first, |contents|;
    CoversNothing(contents, n);
    if ok { GrownStarts(d.g, d.disk, first); }
    if ok && left > 0 { HeadStarts(d.g, d.disk, first, contents); }
    while left > 0
      invariant d.Valid() && |d.disk| == |before| && 0 <= left <= |contents|
      invariant d.calls == start + log && Covers(log, contents, n, left)
      invariant if |log| == 0 then active == first && d.disk == before
                else log[0].cluster == first && d.g.OnDisk(|before|, first)
      invariant |ch| > 0 && ch[0] == first && Last(ch) == active
      invariant ok ==> GrownTo(d.g, before, d.disk, ch)
      invariant ok && left > 0 ==> Head(d.g, before, d.disk, ch, contents, left)
      invariant left == 0 ==> contents == [] && d.disk == before
    {
      CoversMore(log, contents, n, left, active);
      ghost var call, less := TurnCall(contents, left, n, active), left - Chunk(left, n);
      CallsAppend(start, log, call);
      log := log + [call];
      code, left := WriteTurn(d, contents, left, active, ok, before, ch);
      if code != 0 {
        assert Covers(log, contents, n, less);
        return -1, ch, log;
      }
      if left == 0 {
        CoversAll(log, contents, n);
        if ok { CompleteFits(d.g, before, d.disk, ch, contents); }
        return 0, ch, log;
      }
      var next;
      code, next := LinkNext(d, active, ok, before, ch, contents, left);
      if code != 0 { return -1, ch, log; }
      active := next;
      ch := ch + [next];
    }
    CoversAll(log, contents, n);
    return 0, ch, log;
  }

  lemma CoversAll(log: seq<Call>, contents: seq<byte>, n: nat)
    requires Covers(log, contents, n, 0)
    ensures |log| == Turns(|contents|, n)
  {
  }

  // ---------------------------------------------------------------------
  // What the write leaves behind
  // ---------------------------------------------------------------------

  /** A forest has no circles, so paths can be resolved and files read. */
  lemma ForestIsSound(g: Geometry, disk: Disk)
    requires g.Valid() && g.fatType == 32 && Forest(Table(g, disk))
    ensures Sound(g, disk)
  {
    ForestIsAcyclic(Table(g, disk));
  }

  /** A file write keeps the volume a forest of disjoint chains, on which files can be read. Files only
      grow exactly when the write claimed nothing or began at the end of a chain: otherwise it has cut
      another file in two. */
  lemma PutKeepsForest(g: Geometry, before: Disk, after: Disk, ch: seq<nat>)
    requires GrownTo(g, before, after, ch) && Forest(Table(g, before))
    ensures Forest(Table(g, after)) && Sound(g, after)
    ensures OnlyGrew(Table(g, before), Table(g, after)) <==> |ch| == 1 || Table(g, before)[ch[0]] >= END32
  {
    hide Entry, Run, GrowthSteps, OnlyGrew, IsTrail, Settled;
    GrewChainKeepsForest(Table(g, before), Table(g, after), ch);
    ForestIsSound(g, after);
  }
}
