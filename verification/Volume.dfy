/** The volume as the driver sees it: sectors, geometry, and the FAT entry each
    cluster number leads to. */
module Volume {
  import opened Arith
  import opened Bytes

  /** The disk transfers 256 words per block, whatever the boot sector says. */
  type Sector = s: seq<byte> | |s| == 512 witness seq(512, _ => 0)
  type Disk = seq<Sector>

  const END32: int := 0x0FFF_FFF8
  const BAD32: int := 0x0FFF_FFF7
  const END16: int := 0xFFF8
  const BAD16: int := 0xFFF7
  const END12: int := 0xFF8
  const BAD12: int := 0xFF7

  /** The driver's geometry globals. `total` is total_clusters, `spc` sectors_per_cluster. */
  datatype Geometry = Geometry(fatType: nat, firstFat: nat, firstData: nat, total: nat, spc: nat, root: nat) {

    /** A cluster fits the 32 kB table the driver keeps on its stack, and sector numbers fit 32 bits.
        (The partition has 16771860 sectors, so it holds far fewer clusters than allowed here.) */
    predicate Valid() {
      && 1 <= spc <= 64
      && total <= 0x200_0000
      && firstFat < 0x1_0000
      && firstData < 0x4000_0000
    }

    function ClusterBytes(): nat {
      512 * spc
    }

    predicate IsCluster(c: int) {
      2 <= c < total
    }

    /** Bytes per FAT entry. */
    function Width(): nat {
      if fatType == 16 then 2 else 4
    }

    /** The sector the driver looks in. It divides by the cluster size, not by the sector size. */
    function FatSector(c: nat): nat
      requires 1 <= spc
    {
      firstFat + Quot(Width() * c, ClusterBytes())
    }

    function FatOffset(c: nat): (o: nat)
      requires 1 <= spc
      ensures o < ClusterBytes()
    {
      Rem(Width() * c, ClusterBytes())
    }

    /** The entry lies inside the one sector the driver transfers. */
    predicate Visible(c: nat)
      requires 1 <= spc
    {
      FatOffset(c) < 512
    }

    /** First sector of a data cluster. */
    function ClusterStart(c: nat): nat
      requires 2 <= c
    {
      firstData + Times(c - 2, spc)
    }

    /** The cluster's data is on the partition. The driver counts clusters by the size of the whole
        volume, so it also accepts numbers of clusters that are not there. */
    predicate OnDisk(sectors: nat, c: nat) {
      IsCluster(c) && ClusterStart(c) + spc <= sectors
    }

    /** The sectors holding FAT entries lie before the first data sector. */
    ghost predicate FatBelowData()
      requires 1 <= spc
    {
      forall c: nat :: IsCluster(c) ==> FatSector(c) < firstData
    }

    ghost predicate AllVisible()
      requires 1 <= spc
    {
      forall c: nat :: IsCluster(c) ==> Visible(c)
    }

    /** Values an entry can hold once the driver has masked them. */
    function EntryLimit(): nat {
      if fatType == 16 then 0x1_0000 else 0x1000_0000
    }
  }

  predicate InPartition(disk: Disk, sector: nat, count: nat) {
    sector + count <= |disk| && count <= 0x7F
  }

  /** The stored bits of the entry at a byte offset of a FAT sector. */
  function EntryBits(g: Geometry, s: seq<byte>, at: nat): (v: nat)
    requires at + g.Width() <= |s|
  {
    if g.fatType == 16 then Le16(s, at) else Le32(s, at) % 0x1000_0000
  }

  function EntryBytes(g: Geometry, v: nat): (s: seq<byte>)
    requires v < 0x1_0000_0000
    ensures |s| == g.Width()
    ensures EntryBits(g, s, 0) == v % g.EntryLimit()
  {
    if g.fatType == 16 then ToLe16(v % 0x1_0000) else ToLe32(v)
  }

  /** What FATRead answers. */
  function Entry(g: Geometry, disk: Disk, c: nat): (v: int)
    requires g.Valid()
    ensures -1 <= v < 0x1000_0000
  {
    if !g.IsCluster(c) || g.fatType !in {16, 32} || !InPartition(disk, g.FatSector(c), 1) then -1
    else if g.Visible(c) then
      EntryAligned(g, c);
      EntryBits(g, disk[g.FatSector(c)], g.FatOffset(c))
    else 0
  }

  /** The FAT as the map the driver presents, indexed by cluster number. */
  function Table(g: Geometry, disk: Disk): (t: seq<int>)
    requires g.Valid()
    ensures |t| == g.total
    ensures forall c :: 0 <= c < |t| ==> t[c] == Entry(g, disk, c) && -1 <= t[c] < 0x1000_0000
  {
    seq(g.total, c requires 0 <= c < g.total => Entry(g, disk, c))
  }

  /** Consecutive sectors as one byte string. */
  function Span(disk: Disk, sector: nat, count: nat): (s: seq<byte>)
    requires sector + count <= |disk|
    ensures |s| == 512 * count
  {
    if count == 0 then [] else Span(disk, sector, count - 1) + disk[sector + count - 1]
  }

  /** The disk with `count` consecutive sectors overwritten by `data`. */
  function Store(disk: Disk, sector: nat, count: nat, data: seq<byte>): (d: Disk)
    requires |data| == 512 * count
    requires sector + count <= |disk|
    ensures |d| == |disk|
    ensures forall i :: 0 <= i < |disk| && !(sector <= i < sector + count) ==> d[i] == disk[i]
    decreases count
  {
    if count == 0 then disk
    else
      var front := 512 * (count - 1);
      Store(disk, sector, count - 1, data[..front])[sector + count - 1 := data[front..]]
  }

  lemma {:induction false} SpanOfStore(disk: Disk, sector: nat, count: nat, data: seq<byte>)
    requires |data| == 512 * count
    requires sector + count <= |disk|
    ensures Span(Store(disk, sector, count, data), sector, count) == data
    decreases count
  {
    if count != 0 {
      var front := data[..512 * (count - 1)];
      SpanOfStore(disk, sector, count - 1, front);
      SpanFrame(Store(disk, sector, count, data), Store(disk, sector, count - 1, front), sector, count - 1);
      assert data == front + data[512 * (count - 1)..];
    }
  }

  /** A span depends on its own sectors only. */
  lemma {:induction false} SpanFrame(d: Disk, e: Disk, sector: nat, count: nat)
    requires sector + count <= |d| && sector + count <= |e|
    requires forall i :: sector <= i < sector + count ==> d[i] == e[i]
    ensures Span(d, sector, count) == Span(e, sector, count)
  {
    if count != 0 { SpanFrame(d, e, sector, count - 1); }
  }

  /** The bytes of a data cluster. */
  function ClusterData(g: Geometry, disk: Disk, c: nat): (s: seq<byte>)
    requires g.Valid() && g.OnDisk(|disk|, c)
    ensures |s| == g.ClusterBytes()
  {
    Span(disk, g.ClusterStart(c), g.spc)
  }

  // ---------------------------------------------------------------------
  // Where entries lie
  // ---------------------------------------------------------------------

  lemma {:induction false} AlignedRem(c: nat, k: nat, w: nat)
    requires k > 0 && w in {2, 4}
    ensures Rem(w * c, w * k) % w == 0
    decreases c
  {
    if c >= k {
      AlignedRem(c - k, k, w);
      assert w * (c - k) == w * c - w * k;
    }
  }

  /** Entries are aligned, so a visible one never straddles the sector end. */
  lemma EntryAligned(g: Geometry, c: nat)
    requires g.Valid()
    ensures g.FatOffset(c) % g.Width() == 0
    ensures g.FatOffset(c) + g.Width() <= g.ClusterBytes()
    ensures g.Visible(c) ==> g.FatOffset(c) + g.Width() <= 512
  {
    hide Rem;
    AlignedRem(c, if g.Width() == 2 then 256 * g.spc else 128 * g.spc, g.Width());
  }

  /** Two clusters never share an entry: their entries are in different sectors or do not overlap. */
  lemma EntriesApart(g: Geometry, c: nat, d: nat)
    requires g.Valid() && c != d
    ensures g.FatSector(c) != g.FatSector(d)
         || g.FatOffset(c) + g.Width() <= g.FatOffset(d)
         || g.FatOffset(d) + g.Width() <= g.FatOffset(c)
  {
    EntryAligned(g, c);
    EntryAligned(g, d);
    QuotRem(g.Width() * c, g.ClusterBytes());
    QuotRem(g.Width() * d, g.ClusterBytes());
    hide Rem, Quot;
  }

  // ---------------------------------------------------------------------
  // Writing an entry
  // ---------------------------------------------------------------------

  /** The disk after FATWrite. A write to an entry outside the transferred sector is lost. */
  function WriteEntry(g: Geometry, disk: Disk, c: nat, v: nat): (d: Disk)
    requires g.Valid() && v < 0x1_0000_0000
    ensures |d| == |disk|
  {
    if Entry(g, disk, c) == -1 || !g.Visible(c) then disk
    else
      EntryAligned(g, c);
      disk[g.FatSector(c) := Patch(disk[g.FatSector(c)], g.FatOffset(c), EntryBytes(g, v))]
  }

  lemma ReadBack(g: Geometry, s: Sector, at: nat, v: nat)
    requires v < 0x1_0000_0000 && at + g.Width() <= 512
    ensures EntryBits(g, Patch(s, at, EntryBytes(g, v)), at) == v % g.EntryLimit()
  {
    var b := EntryBytes(g, v);
    var p := Patch(s, at, b);
    assert forall i :: 0 <= i < g.Width() ==> p[at + i] == b[i];
    assert Le16(p, at) == Le16(b, 0) by { assert p[at + 0] == b[0] && p[at + 1] == b[1]; }
    if g.fatType != 16 {
      assert Le16(p, at + 2) == Le16(b, 2) by { assert p[at + 2] == b[2] && p[at + 3] == b[3]; }
    }
  }

  lemma ReadElsewhere(g: Geometry, s: Sector, at: nat, v: nat, other: nat)
    requires v < 0x1_0000_0000 && at + g.Width() <= 512 && other + g.Width() <= 512
    requires at + g.Width() <= other || other + g.Width() <= at
    ensures EntryBits(g, Patch(s, at, EntryBytes(g, v)), other) == EntryBits(g, s, other)
  {
    var p := Patch(s, at, EntryBytes(g, v));
    assert p[other] == s[other] && p[other + 1] == s[other + 1];
    if g.fatType != 16 {
      assert p[other + 2] == s[other + 2] && p[other + 3] == s[other + 3];
    }
  }

  lemma WriteOther(g: Geometry, disk: Disk, c: nat, v: nat, d: nat)
    requires g.Valid() && v < 0x1_0000_0000 && c != d
    ensures Entry(g, WriteEntry(g, disk, c, v), d) == Entry(g, disk, d)
  {
    if Entry(g, disk, c) != -1 && g.Visible(c) && Entry(g, disk, d) != -1 && g.Visible(d) {
      EntryAligned(g, c);
      EntryAligned(g, d);
      EntriesApart(g, c, d);
      if g.FatSector(c) == g.FatSector(d) {
        ReadElsewhere(g, disk[g.FatSector(c)], g.FatOffset(c), v, g.FatOffset(d));
      }
    }
  }

  /** The on-disk FAT refines a map: a write to a visible entry is a map update, a write to any
      other entry changes nothing at all. */
  lemma WriteRefinesMap(g: Geometry, disk: Disk, c: nat, v: nat)
    requires g.Valid() && v < 0x1_0000_0000
    requires Entry(g, disk, c) != -1
    ensures g.Visible(c) ==>
              Table(g, WriteEntry(g, disk, c, v)) == Table(g, disk)[c := v % g.EntryLimit()]
    ensures !g.Visible(c) ==> WriteEntry(g, disk, c, v) == disk
  {
    var after := WriteEntry(g, disk, c, v);
    forall d: nat | d < g.total && d != c
      ensures Entry(g, after, d) == Entry(g, disk, d)
    {
      WriteOther(g, disk, c, v, d);
    }
    if g.Visible(c) {
      EntryAligned(g, c);
      ReadBack(g, disk[g.FatSector(c)], g.FatOffset(c), v);
      assert Entry(g, after, c) == v % g.EntryLimit();
    }
  }

  /** A disk that differs below the data region only, holds the same data clusters. */
  lemma DataFrame(g: Geometry, d: Disk, e: Disk, c: nat)
    requires g.Valid() && g.OnDisk(|d|, c) && |d| == |e|
    requires forall i :: g.firstData <= i < |d| ==> d[i] == e[i]
    ensures ClusterData(g, d, c) == ClusterData(g, e, c)
  {
    SpanFrame(d, e, g.ClusterStart(c), g.spc);
  }

  /** FAT entries depend on the sectors below the data region only. */
  lemma TableFrame(g: Geometry, d: Disk, e: Disk)
    requires g.Valid() && g.FatBelowData() && |d| == |e|
    requires forall i :: 0 <= i < g.firstData && i < |d| ==> d[i] == e[i]
    ensures Table(g, d) == Table(g, e)
  {
    forall c: nat | c < g.total
      ensures Entry(g, d, c) == Entry(g, e, c)
    {
      if g.IsCluster(c) { assert g.FatSector(c) < g.firstData; }
    }
  }

  /** FAT writes never reach a data cluster. */
  lemma WriteKeepsData(g: Geometry, disk: Disk, c: nat, v: nat, d: nat)
    requires g.Valid() && v < 0x1_0000_0000
    requires g.FatBelowData() && g.OnDisk(|disk|, d)
    ensures ClusterData(g, WriteEntry(g, disk, c, v), d) == ClusterData(g, disk, d)
  {
    if g.IsCluster(c) { assert g.FatSector(c) < g.firstData; }
    DataFrame(g, WriteEntry(g, disk, c, v), disk, d);
  }

  // ---------------------------------------------------------------------
  // Writing a cluster
  // ---------------------------------------------------------------------

  /** Clusters on the partition are those up to some number. */
  lemma OnDiskDown(g: Geometry, sectors: nat, c: nat, d: nat)
    requires g.OnDisk(sectors, d) && 2 <= c <= d
    ensures g.OnDisk(sectors, c)
  {
    if c < d { TimesStep(c - 2, d - 2, g.spc); }
  }

  lemma ClustersApart(g: Geometry, c: nat, d: nat)
    requires 2 <= c < d
    ensures g.ClusterStart(c) + g.spc <= g.ClusterStart(d)
  {
    TimesStep(c - 2, d - 2, g.spc);
  }

  function WriteCluster(g: Geometry, disk: Disk, c: nat, data: seq<byte>): (d: Disk)
    requires g.Valid() && g.OnDisk(|disk|, c)
    requires |data| == g.ClusterBytes()
    ensures |d| == |disk|
  {
    Store(disk, g.ClusterStart(c), g.spc, data)
  }

  lemma WriteClusterKeepsTable(g: Geometry, disk: Disk, c: nat, data: seq<byte>)
    requires g.Valid() && g.OnDisk(|disk|, c) && g.FatBelowData()
    requires |data| == g.ClusterBytes()
    ensures Table(g, WriteCluster(g, disk, c, data)) == Table(g, disk)
  {
    TableFrame(g, WriteCluster(g, disk, c, data), disk);
  }

  lemma WriteClusterData(g: Geometry, disk: Disk, c: nat, data: seq<byte>, d: nat)
    requires g.Valid() && g.OnDisk(|disk|, c) && g.OnDisk(|disk|, d)
    requires |data| == g.ClusterBytes()
    ensures ClusterData(g, WriteCluster(g, disk, c, data), d) == if d == c then data else ClusterData(g, disk, d)
  {
    if d == c {
      SpanOfStore(disk, g.ClusterStart(c), g.spc, data);
    } else {
      if d < c { ClustersApart(g, d, c); } else { ClustersApart(g, c, d); }
      SpanFrame(WriteCluster(g, disk, c, data), disk, g.ClusterStart(d), g.spc);
    }
  }

  /** Writing a cluster changes that cluster and no other, and no FAT entry. */
  lemma WriteClusterEffect(g: Geometry, disk: Disk, c: nat, data: seq<byte>)
    requires g.Valid() && g.OnDisk(|disk|, c) && g.FatBelowData()
    requires |data| == g.ClusterBytes()
    ensures Table(g, WriteCluster(g, disk, c, data)) == Table(g, disk)
    ensures forall d: nat :: g.OnDisk(|disk|, d) ==>
              ClusterData(g, WriteCluster(g, disk, c, data), d) ==
                if d == c then data else ClusterData(g, disk, d)
  {
    WriteClusterKeepsTable(g, disk, c, data);
    forall d: nat | g.OnDisk(|disk|, d)
      ensures ClusterData(g, WriteCluster(g, disk, c, data), d) == if d == c then data else ClusterData(g, disk, d)
    {
      WriteClusterData(g, disk, c, data, d);
    }
  }

  // ---------------------------------------------------------------------
  // Agreement with the FAT specification
  // ---------------------------------------------------------------------

  /** The entry as "FAT Type Determination" in the FAT specification 1.03 places it: at byte 2 * c or
      4 * c of the FAT region, counted in sectors of 512 bytes; of four bytes the lower 28 bits. */
  function SpecEntry(g: Geometry, disk: Disk, c: nat): (v: int)
    requires g.Valid()
  {
    if !(2 <= c < g.total) || g.fatType !in {16, 32} then -1
    else
      var at := if g.fatType == 16 then 2 * c else 4 * c;
      var sector, k := g.firstFat + at / 512, at % 512;
      if sector >= |disk| then -1
      else if g.fatType == 16 then Number(disk[sector][k..k + 2])
      else Number(disk[sector][k..k + 4]) % 0x1000_0000
  }

  /** What the driver reads of an entry are those bytes. */
  lemma EntryBytesRead(g: Geometry, s: Sector, k: nat)
    requires g.fatType in {16, 32} && k + g.Width() <= 512
    ensures EntryBits(g, s, k) ==
              if g.fatType == 16 then Number(s[k..k + 2]) else Number(s[k..k + 4]) % 0x1000_0000
  {
    NumberIsLe16(s, k);
    if g.fatType == 32 { NumberIsLe32(s, k); }
  }

  /** With sectors in place of clusters the driver's numbers are the specified ones. */
  lemma SpecByDriver(g: Geometry, disk: Disk, c: nat)
    requires g.Valid() && g.fatType in {16, 32} && g.IsCluster(c)
    ensures var at := g.Width() * c;
            && Rem(at, 512) + g.Width() <= 512
            && SpecEntry(g, disk, c) ==
                 if g.firstFat + Quot(at, 512) >= |disk| then -1
                 else EntryBits(g, disk[g.firstFat + Quot(at, 512)], Rem(at, 512))
  {
    var at := g.Width() * c;
    AlignedRem(c, if g.Width() == 2 then 256 else 128, g.Width());
    QuotRemAreDivMod(at, 512);
    if g.firstFat + at / 512 < |disk| { EntryBytesRead(g, disk[g.firstFat + at / 512], at % 512); }
    hide Quot, Rem;
  }

  /** All entries are visible exactly when a cluster is one sector, or the whole FAT fits one. */
  lemma AllVisibleIff(g: Geometry)
    requires g.Valid()
    ensures g.AllVisible() <==> g.spc == 1 || g.total <= 512 / g.Width()
  {
    var w, k := g.Width(), 512 / g.Width();
    if g.spc == 1 {
    } else if g.total <= k {
      forall c: nat | g.IsCluster(c) ensures g.Visible(c) {
        assert w * c < 512 <= g.ClusterBytes();
      }
    } else {
      assert w * k == 512 < g.ClusterBytes();
      assert g.IsCluster(k) && !g.Visible(k);
    }
  }

  /** The driver's view of the FAT is the specified one on every disk exactly when every entry is
      visible to it. */
  lemma ViewIsSpecifiedIff(g: Geometry)
    requires g.Valid() && g.fatType in {16, 32}
    ensures (forall disk: Disk, c: nat :: Entry(g, disk, c) == SpecEntry(g, disk, c)) <==> g.AllVisible()
  {
    AllVisibleIff(g);
    if g.AllVisible() {
      forall disk: Disk, c: nat ensures Entry(g, disk, c) == SpecEntry(g, disk, c) {
        if g.IsCluster(c) { SpecByDriver(g, disk, c); }
      }
    } else {
      var c := 512 / g.Width();
      var ones: Sector := seq(512, _ => 1);
      var disk: Disk := seq(g.firstFat + 2, _ => ones);
      assert g.Width() * c == 512 < g.ClusterBytes();
      assert Entry(g, disk, c) == 0;
      assert SpecEntry(g, disk, c) != 0;
    }
  }

  /** A transfer is of less than 64 kB, within the partition. */
  lemma TransferIff(disk: Disk, sector: nat, count: nat)
    ensures InPartition(disk, sector, count) <==> sector + count <= |disk| && 512 * count < 0x1_0000
  {
  }

  /** The markers are the specified ones: an entry of w bits ends a chain from 2 to the w less 8 on, and
      the number below marks a bad cluster. */
  lemma MarkersAtTop()
    ensures END12 == 0x1000 - 8 && BAD12 == END12 - 1
    ensures END16 == 0x1_0000 - 8 && BAD16 == END16 - 1
    ensures END32 == 0x1000_0000 - 8 && BAD32 == END32 - 1
  {
  }
}
