/** Mounting: the geometry that FATInitialize reads from the boot sector. */
module Mount {
  import opened Arith
  import opened Bytes
  import opened Volume
  import opened Driver
  import opened Writing

  // Fields of the boot sector.

  function BytesPerSector(b: Sector): nat { Le16(b, 11) }
  function SectorsPerCluster(b: Sector): nat { b[13] }
  function ReservedSectors(b: Sector): nat { Le16(b, 14) }
  function TableCount(b: Sector): nat { b[16] }
  function RootEntries(b: Sector): nat { Le16(b, 17) }
  function TotalSectors16(b: Sector): nat { Le16(b, 19) }
  function TableSize16(b: Sector): nat { Le16(b, 22) }
  function TotalSectors32(b: Sector): nat { Le32(b, 32) }
  function TableSize32(b: Sector): nat { Le32(b, 36) }
  function RootCluster(b: Sector): nat { Le32(b, 44) }

  /** The driver divides by both; a zero in either would trap. */
  predicate Dividable(b: Sector) {
    BytesPerSector(b) > 0 && SectorsPerCluster(b) > 0
  }

  /** The sector count behind total_clusters: the 16-bit field unless it makes less than a cluster. */
  function VolumeSectors(b: Sector): nat {
    if TotalSectors16(b) < SectorsPerCluster(b) then TotalSectors32(b) else TotalSectors16(b)
  }

  /** total_clusters: the whole volume divided into clusters, not the data area only. */
  function TotalClusters(b: Sector): nat
    requires Dividable(b)
  {
    Quot(VolumeSectors(b), SectorsPerCluster(b))
  }

  /** The FAT type the specification derives from a cluster count. */
  function TypeFor(clusters: nat): nat {
    if clusters < 4085 then 12 else if clusters < 65525 then 16 else 32
  }

  /** Sectors of all FAT tables of a FAT32 volume. */
  function TableSectors32(b: Sector): nat {
    Times(TableCount(b), TableSize32(b))
  }

  /** Where the data starts on a FAT12 or FAT16 volume, after the root directory. */
  function FirstData16(b: Sector): nat
    requires Dividable(b)
  {
    ReservedSectors(b) + Times(TableCount(b), TableSize16(b))
    + Quot(RootEntries(b) * 32 + BytesPerSector(b) - 1, BytesPerSector(b))
  }

  function FirstData(b: Sector): nat
    requires Dividable(b)
  {
    if TypeFor(TotalClusters(b)) == 32 then (ReservedSectors(b) + TableSectors32(b)) % 0x1_0000_0000
    else FirstData16(b)
  }

  function GeometryOf(b: Sector): Geometry
    requires Dividable(b)
  {
    Geometry(TypeFor(TotalClusters(b)), ReservedSectors(b), FirstData(b), TotalClusters(b),
             SectorsPerCluster(b), RootCluster(b))
  }

  /** FATInitialize. */
  method FatInitialize(d: Driver) returns (code: int)
    requires d.mem.Length >= 512
    requires |d.disk| > 0 ==> Dividable(d.disk[0])
    modifies d`g, d.mem
    ensures code == if |d.disk| > 0 then 0 else -1
    ensures code == 0 ==> d.g == GeometryOf(d.disk[0]) && d.mem[..] == Patch(old(d.mem[..]), 0, d.disk[0])
    ensures code != 0 ==> d.g == old(d.g) && d.mem[..] == old(d.mem[..])
  {
    code := d.ReadSectors(0, 1, 0);
    if code != 0 { return -1; }
    SpanOne(d.disk, 0);
    PatchFront(old(d.mem[..]), d.disk[0]);
    var b := d.mem[..512];
    assert b == d.disk[0];
    hide Times, FirstData16, TableSectors32, Le32;
    ClustersOf(b);
    var total := Quot(TotalSectors16(b), SectorsPerCluster(b));
    if total == 0 { total := Quot(TotalSectors32(b), SectorsPerCluster(b)); }
    var fatType, firstData := 32, 0;
    if total < 4085 {
      fatType := 12;
      firstData := FirstData16(b);
    } else if total < 65525 {
      fatType := 16;
      firstData := FirstData16(b);
    } else {
      firstData := (ReservedSectors(b) + TableSectors32(b)) % 0x1_0000_0000;
    }
    d.g := Geometry(fatType, ReservedSectors(b), firstData, total, SectorsPerCluster(b), RootCluster(b));
  }

  lemma ClustersOf(b: Sector)
    requires Dividable(b)
    ensures var q := Quot(TotalSectors16(b), SectorsPerCluster(b));
            TotalClusters(b) == if q == 0 then Quot(TotalSectors32(b), SectorsPerCluster(b)) else q
  {
  }

  /** Every cluster number the driver accepts lies within the volume exactly when the area before the
      data is no longer than two clusters and the sectors that do not fill a cluster. With clusters of
      at most 64 sectors that is at most 191 sectors, less than the tables of any FAT32 volume. */
  lemma AcceptedWithinVolumeIff(b: Sector)
    requires Dividable(b) && TotalClusters(b) > 2
    ensures (forall c: nat :: GeometryOf(b).IsCluster(c) ==> GeometryOf(b).OnDisk(VolumeSectors(b), c))
            <==> FirstData(b) <= 2 * SectorsPerCluster(b) + Rem(VolumeSectors(b), SectorsPerCluster(b))
  {
    var g, t, k := GeometryOf(b), VolumeSectors(b), SectorsPerCluster(b);
    var last := g.total - 1;
    QuotRem(t, k);
    assert Times(g.total, k) == k + Times(g.total - 1, k);
    assert Times(g.total - 1, k) == k + Times(g.total - 2, k);
    assert Times(g.total - 2, k) == k + Times(last - 2, k);
    hide FirstData;
    assert g.OnDisk(t, last) <==> FirstData(b) <= 2 * k + Rem(t, k);
    if g.OnDisk(t, last) {
      forall c: nat | g.IsCluster(c) ensures g.OnDisk(t, c) { OnDiskDown(g, t, c, last); }
    }
  }

  /** FAT tables with room for an entry per accepted cluster keep the FAT clear of the data. */
  lemma TablesHoldFat(b: Sector)
    requires Dividable(b) && BytesPerSector(b) == 512 && TypeFor(TotalClusters(b)) == 32
    requires ReservedSectors(b) + TableSectors32(b) < 0x1_0000_0000
    requires 4 * TotalClusters(b) <= Times(TableSectors32(b), 512 * SectorsPerCluster(b))
    ensures GeometryOf(b).FatBelowData()
  {
    var g := GeometryOf(b);
    forall c: nat | g.IsCluster(c)
      ensures g.FatSector(c) < g.firstData
    {
      QuotBelow(4 * c, g.ClusterBytes(), TableSectors32(b));
      hide Times, Quot, TotalClusters, TableSectors32;
    }
  }

  /** A mounted geometry is one that the rest of the model speaks of. */
  lemma MountedValid(b: Sector)
    requires Dividable(b) && BytesPerSector(b) == 512 && SectorsPerCluster(b) <= 64
    requires VolumeSectors(b) <= 0x200_0000 && TypeFor(TotalClusters(b)) == 32
    requires ReservedSectors(b) + TableSectors32(b) < 0x4000_0000
    ensures GeometryOf(b).Valid()
  {
    hide Times;
    QuotNoMore(VolumeSectors(b), SectorsPerCluster(b));
  }

  lemma {:induction false} QuotNoMore(n: nat, d: nat)
    requires d > 0
    ensures Quot(n, d) <= n
    decreases n
  {
    if n >= d { QuotNoMore(n - d, d); }
  }

  /** A FAT32 volume whose tables hold its FAT can be written to, chains and all, exactly when a cluster
      is one sector. */
  lemma MountedWritableIff(b: Sector)
    requires Dividable(b) && BytesPerSector(b) == 512 && SectorsPerCluster(b) <= 64
    requires VolumeSectors(b) <= 0x200_0000 && TypeFor(TotalClusters(b)) == 32
    requires ReservedSectors(b) + TableSectors32(b) < 0x4000_0000
    requires 4 * TotalClusters(b) <= Times(TableSectors32(b), 512 * SectorsPerCluster(b))
    ensures Writable(GeometryOf(b)) <==> SectorsPerCluster(b) == 1
  {
    MountedValid(b);
    TablesHoldFat(b);
    AllVisibleIff(GeometryOf(b));
    hide Times, Quot, TotalClusters, TableSectors32, FirstData;
  }

  lemma QuotBelow(n: nat, d: nat, k: nat)
    requires d > 0 && n < Times(k, d)
    ensures Quot(n, d) < k
  {
    QuotRem(n, d);
    if k < Quot(n, d) { TimesStep(k, Quot(n, d), d); }
  }

  // ---------------------------------------------------------------------
  // The fields of the boot sector
  // ---------------------------------------------------------------------

  /** The packed structures of the boot sector: fat_BS and, in its extended section, fat_extBS_32. */
  datatype Boot = Boot(jump: seq<byte>, oem: seq<byte>, bytesPerSector: nat, sectorsPerCluster: byte, reserved: nat,
                       tables: byte, rootEntries: nat, total16: nat, media: byte, size16: nat, perTrack: nat,
                       heads: nat, hidden: nat, total32: nat, size32: nat, flags: nat, version: nat, root: nat,
                       rest: seq<byte>) {
    predicate Valid() {
      && |jump| == 3 && |oem| == 8 && |rest| == 464
      && bytesPerSector < 0x1_0000 && reserved < 0x1_0000 && rootEntries < 0x1_0000 && total16 < 0x1_0000
      && size16 < 0x1_0000 && perTrack < 0x1_0000 && heads < 0x1_0000 && flags < 0x1_0000 && version < 0x1_0000
      && hidden < 0x1_0000_0000 && total32 < 0x1_0000_0000 && size32 < 0x1_0000_0000 && root < 0x1_0000_0000
    }

    function Size(): (s: seq<byte>)
      requires Valid()
      ensures |s| == 14
    {
      jump + oem + ToLe16(bytesPerSector) + [sectorsPerCluster]
    }

    function Layout(): (s: seq<byte>)
      requires Valid()
      ensures |s| == 10
    {
      ToLe16(reserved) + [tables] + ToLe16(rootEntries) + ToLe16(total16) + [media] + ToLe16(size16)
    }

    function Drive(): (s: seq<byte>)
      requires Valid()
      ensures |s| == 12
    {
      ToLe16(perTrack) + ToLe16(heads) + ToLe32(hidden) + ToLe32(total32)
    }

    function Extended(): (s: seq<byte>)
      requires Valid()
      ensures |s| == 12
    {
      ToLe32(size32) + ToLe16(flags) + ToLe16(version) + ToLe32(root)
    }

    function Bytes(): (s: Sector)
      requires Valid()
    {
      Size() + Layout() + Drive() + Extended() + rest
    }
  }

  lemma SizeFields(x: Boot)
    requires x.Valid()
    ensures var s := x.Size(); Le16(s, 11) == x.bytesPerSector && s[13] == x.sectorsPerCluster
  {
    hide ToLe16;
    var s, w := x.Size(), ToLe16(x.bytesPerSector);
    assert s[11] == w[0] && s[12] == w[1];
  }

  lemma LayoutFields(x: Boot)
    requires x.Valid()
    ensures var s := x.Layout();
            && Le16(s, 0) == x.reserved && s[2] == x.tables && Le16(s, 3) == x.rootEntries && Le16(s, 5) == x.total16
            && Le16(s, 8) == x.size16
  {
    hide ToLe16;
    var s := x.Layout();
    assert s[0] == ToLe16(x.reserved)[0] && s[1] == ToLe16(x.reserved)[1];
    assert s[3] == ToLe16(x.rootEntries)[0] && s[4] == ToLe16(x.rootEntries)[1];
    assert s[5] == ToLe16(x.total16)[0] && s[6] == ToLe16(x.total16)[1];
    assert s[8] == ToLe16(x.size16)[0] && s[9] == ToLe16(x.size16)[1];
  }

  lemma DriveFields(x: Boot)
    requires x.Valid()
    ensures Le32(x.Drive(), 8) == x.total32
  {
    hide ToLe16, ToLe32, Le32;
    var s := x.Drive();
    assert s[8..12] == ToLe32(x.total32);
    DwordOf(s, 8);
  }

  lemma ExtendedFields(x: Boot)
    requires x.Valid()
    ensures var s := x.Extended(); Le32(s, 0) == x.size32 && Le32(s, 8) == x.root
  {
    hide ToLe16, ToLe32, Le32;
    var s := x.Extended();
    assert s[0..4] == ToLe32(x.size32) && s[8..12] == ToLe32(x.root);
    DwordOf(s, 0);
    DwordOf(s, 8);
  }

  /** A field read in a part is read at its place in the whole. */
  lemma PartRead(front: seq<byte>, part: seq<byte>, rest: seq<byte>, at: nat)
    ensures var s := front + part + rest;
            && (at < |part| ==> s[|front| + at] == part[at])
            && (at + 2 <= |part| ==> Le16(s, |front| + at) == Le16(part, at))
            && (at + 4 <= |part| ==> Le32(s, |front| + at) == Le32(part, at))
  {
    var s := front + part + rest;
    assert forall i :: 0 <= i < |part| ==> s[|front| + i] == part[i];
  }

  lemma DwordOf(s: seq<byte>, at: nat)
    requires at + 4 <= |s|
    ensures Le32(s, at) == Le32(s[at..at + 4], 0)
  {
  }

  lemma FieldsRead(x: Boot)
    requires x.Valid()
    ensures var b := x.Bytes();
            && BytesPerSector(b) == x.bytesPerSector && SectorsPerCluster(b) == x.sectorsPerCluster
            && ReservedSectors(b) == x.reserved && TableCount(b) == x.tables && RootEntries(b) == x.rootEntries
            && TotalSectors16(b) == x.total16 && TableSize16(b) == x.size16 && TotalSectors32(b) == x.total32
            && TableSize32(b) == x.size32 && RootCluster(b) == x.root
  {
    hide Boot.Size, Boot.Layout, Boot.Drive, Boot.Extended, Le16, Le32;
    SizeFields(x);
    LayoutFields(x);
    DriveFields(x);
    ExtendedFields(x);
    var b, s, l, d, e := x.Bytes(), x.Size(), x.Layout(), x.Drive(), x.Extended();
    assert b == [] + s + (l + d + e + x.rest) && b == s + l + (d + e + x.rest);
    assert b == (s + l) + d + (e + x.rest) && b == (s + l + d) + e + x.rest;
    PartRead([], s, l + d + e + x.rest, 11);
    PartRead([], s, l + d + e + x.rest, 13);
    PartRead(s, l, d + e + x.rest, 0);
    PartRead(s, l, d + e + x.rest, 2);
    PartRead(s, l, d + e + x.rest, 3);
    PartRead(s, l, d + e + x.rest, 5);
    PartRead(s, l, d + e + x.rest, 8);
    PartRead(s + l, d, e + x.rest, 8);
    PartRead(s + l + d, e, x.rest, 0);
    PartRead(s + l + d, e, x.rest, 8);
  }

  function Divided(n: nat, d: nat): nat
    requires d > 0
  {
    n / d
  }

  function Multiplied(a: nat, b: nat): nat {
    a * b
  }

  /** Clusters of the whole volume, by the 16-bit count unless it makes none. */
  function CountOf(x: Boot): nat
    requires x.sectorsPerCluster > 0
  {
    if Divided(x.total16, x.sectorsPerCluster) == 0 then Divided(x.total32, x.sectorsPerCluster)
    else Divided(x.total16, x.sectorsPerCluster)
  }

  /** The first data sector, after all tables and, unless it is FAT32, the root directory. */
  function DataOf(x: Boot): nat
    requires x.bytesPerSector > 0 && x.sectorsPerCluster > 0
  {
    if CountOf(x) >= 65525 then (x.reserved + Multiplied(x.tables, x.size32)) % 0x1_0000_0000
    else
      x.reserved + Multiplied(x.tables, x.size16)
      + Divided(32 * x.rootEntries + x.bytesPerSector - 1, x.bytesPerSector)
  }

  /** The mounted geometry from the fields of the boot sector. From 65525 clusters on it is FAT32, whose
      data starts after the reserved sectors and all tables; from 4085 on FAT16 and below that FAT12,
      with the root directory before the data. */
  lemma MountedFrom(x: Boot)
    requires x.Valid() && x.bytesPerSector > 0 && x.sectorsPerCluster > 0
    ensures Dividable(x.Bytes())
    ensures var clusters := CountOf(x);
            GeometryOf(x.Bytes()) ==
              Geometry(if clusters >= 65525 then 32 else if clusters >= 4085 then 16 else 12, x.reserved, DataOf(x),
                       clusters, x.sectorsPerCluster, x.root)
  {
    FieldsRead(x);
    var b := x.Bytes();
    ClustersOf(b);
    TimesIsProduct(x.tables, x.size32);
    TimesIsProduct(x.tables, x.size16);
    QuotRemAreDivMod(x.total16, x.sectorsPerCluster);
    QuotRemAreDivMod(x.total32, x.sectorsPerCluster);
    QuotRemAreDivMod(32 * x.rootEntries + x.bytesPerSector - 1, x.bytesPerSector);
    hide Times, Quot, BytesPerSector, SectorsPerCluster, ReservedSectors, TableCount, RootEntries, TotalSectors16,
         TableSize16, TotalSectors32, TableSize32, RootCluster, TotalClusters;
  }
}
