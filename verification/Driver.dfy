/** The FAT driver's state and its block, entry and cluster operations. */
module Driver {
  import opened Arith
  import opened Bytes
  import opened Volume
  import opened Chains

  /** Size of the transfer window from 0x40000 up to 0x80000. */
  const WINDOW: nat := 0x4_0000

  /** Marker that allocateFreeFAT stores in a claimed entry. */
  function EndMark(g: Geometry): nat {
    if g.fatType == 16 then END16 else END32
  }

  /** Value that allocateFreeFAT answers when nothing is free. */
  function BadMark(g: Geometry): nat {
    if g.fatType == 16 then BAD16 else BAD32
  }

  /** Offset of a cluster-sized slot of the transfer memory. */
  function SlotAt(g: Geometry, slot: nat): nat {
    Times(slot, g.ClusterBytes())
  }

  /** The FAT sector of `c`, as FATRead leaves it at the start of the transfer memory. */
  function FatLoaded(g: Geometry, disk: Disk, c: nat, m: seq<byte>): (r: seq<byte>)
    requires g.Valid() && |m| >= 512
    ensures |r| == |m| && r[512..] == m[512..]
  {
    if Entry(g, disk, c) == -1 then m else Patch(m, 0, disk[g.FatSector(c)])
  }

  /** A call of clusterWrite. */
  datatype Call = Call(cluster: nat, contents: seq<byte>)

  class Driver {
    /** Geometry globals, filled in when the volume is mounted. */
    var g: Geometry
    /** The sectors of the partition. */
    var disk: Disk
    /** Memory from DISK_READ_LOCATION, which is also DISK_WRITE_LOCATION. */
    const mem: array<byte>
    /** The calls of clusterWrite so far. */
    ghost var calls: seq<Call>

    constructor (g: Geometry, disk: Disk, mem: array<byte>)
      ensures this.g == g && this.disk == disk && this.mem == mem && calls == []
    {
      this.g, this.disk, this.mem, calls := g, disk, mem, [];
    }

    ghost predicate Valid()
      reads this
    {
      g.Valid() && WINDOW <= mem.Length < 0x1_0000_0000
    }

    /** memcpy into the transfer memory. */
    method CopyIn(s: seq<byte>, at: nat)
      requires at + |s| <= mem.Length
      modifies mem
      ensures mem[..] == Patch(old(mem[..]), at, s)
    {
      forall i | 0 <= i < |s| { mem[at + i] := s[i]; }
    }

    /** int13h_read_o: copies sectors to the transfer memory, if they are on the partition. */
    method ReadSectors(sector: nat, count: nat, at: nat) returns (code: int)
      requires count < 0x100
      requires at + 512 * count <= mem.Length
      modifies mem
      ensures code == if InPartition(disk, sector, count) then 0 else -1
      ensures code == 0 ==> mem[..] == Patch(old(mem[..]), at, Span(disk, sector, count))
      ensures code != 0 ==> mem[..] == old(mem[..])
    {
      if sector + count > |disk| { return -1; }
      if count > 0x7F { return -1; }
      ghost var before := mem[..];
      ReadNothing(disk, sector, before, at);
      hide Patch, Span;
      for n := 0 to count
        invariant mem[..] == Patch(before, at, Span(disk, sector, n))
      {
        ReadOneMore(disk, sector, n, before, at);
        CopyIn(disk[sector + n], at + 512 * n);
      }
      return 0;
    }

    /** int13h_write_o: copies transfer memory to sectors, if they are on the partition. */
    method WriteSectors(sector: nat, count: nat, at: nat) returns (code: int)
      requires count < 0x100
      requires at + 512 * count <= mem.Length
      modifies this`disk
      ensures code == if InPartition(old(disk), sector, count) then 0 else -1
      ensures code == 0 ==> disk == Store(old(disk), sector, count, mem[at..at + 512 * count])
      ensures code != 0 ==> disk == old(disk)
    {
      if sector + count > |disk| { return -1; }
      if count > 0x7F { return -1; }
      for n := 0 to count
        invariant |disk| == |old(disk)|
        invariant disk == Store(old(disk), sector, n, mem[at..at + 512 * n])
      {
        var base := at + 512 * n;
        ghost var data := mem[at..base + 512];
        assert data[..|data| - 512] == mem[at..base];
        assert data[|data| - 512..] == mem[base..base + 512];
        disk := disk[sector + n := mem[base..base + 512]];
      }
      return 0;
    }

    /** How FATRead and FATWrite begin: check the cluster number, transfer the sector and copy it to
        a 32 kB table on the stack. The rest of the table is cleared for FAT32 only. */
    method LoadTable(c: nat) returns (code: int, table: seq<byte>)
      requires Valid()
      modifies mem
      ensures code == if Entry(g, disk, c) == -1 then -1 else 0
      ensures code == 0 ==> |table| == 32 * 1024 && table[..512] == disk[g.FatSector(c)]
      ensures code == 0 && g.fatType == 32 ==> forall i :: 512 <= i < |table| ==> table[i] == 0
      ensures mem[..] == FatLoaded(g, disk, c, old(mem[..]))
    {
      table := [];
      if c < 2 || c >= g.total { return -1, table; }
      if g.fatType != 32 && g.fatType != 16 { return -1, table; }
      code := ReadSectors(g.FatSector(c), 1, 0);
      if code != 0 { return; }
      SpanOne(disk, g.FatSector(c));
      var stack := new byte[32 * 1024];
      if g.fatType == 32 {
        forall i | 512 <= i < stack.Length { stack[i] := 0; }
      }
      table := mem[..512] + stack[512..];
    }

    /** FATRead. An entry beyond the transferred sector reads 0 in FAT32 and anything in FAT16. */
    method FatRead(c: nat) returns (r: int)
      requires Valid()
      modifies mem
      ensures g.fatType != 16 || g.Visible(c) || !g.IsCluster(c) ==> r == Entry(g, disk, c)
      ensures mem[..] == FatLoaded(g, disk, c, old(mem[..]))
    {
      var code, table := LoadTable(c);
      if code != 0 { return -1; }
      EntryAligned(g, c);
      r := EntryBits(g, table, g.FatOffset(c));
      TableEntry(g, disk[g.FatSector(c)], table, g.FatOffset(c));
    }

    /** FATWrite. */
    method FatWrite(c: nat, v: nat) returns (code: int)
      requires Valid() && v < 0x1_0000_0000
      modifies this`disk, mem
      ensures Valid() && |disk| == |old(disk)|
      ensures code == if Entry(g, old(disk), c) == -1 then -1 else 0
      ensures disk == WriteEntry(g, old(disk), c, v)
      ensures mem[..] == FatLoaded(g, disk, c, old(mem[..]))
    {
      var table;
      code, table := LoadTable(c);
      if code != 0 { return; }
      TableWritten(g, disk, c, v, table, old(mem[..]));
      hide Entry, WriteEntry, FatLoaded, Quot, Rem, Patch;
      table := Patch(table, g.FatOffset(c), EntryBytes(g, v));
      PatchFront(mem[..], table[..512]);
      CopyIn(table[..512], 0);
      assert mem[0..0 + 512 * 1] == mem[..][..512];
      StoreOne(disk, g.FatSector(c), table[..512]);
      code := WriteSectors(g.FatSector(c), 1, 0);
    }

    /** clusterRead: loads a cluster into slot `slot` of the transfer memory. */
    method ClusterRead(c: nat, slot: nat) returns (code: int)
      requires Valid()
      requires g.IsCluster(c) ==> SlotAt(g, slot) + g.ClusterBytes() <= mem.Length
      modifies mem
      ensures code == if g.OnDisk(|disk|, c) then 0 else -1
      ensures code == 0 ==> mem[..] == Patch(old(mem[..]), SlotAt(g, slot), ClusterData(g, disk, c))
      ensures code != 0 ==> mem[..] == old(mem[..])
    {
      if c < 2 || c >= g.total { return -1; }
      code := ReadSectors(g.ClusterStart(c), g.spc, SlotAt(g, slot));
    }

    /** clusterWrite: places `contents` in slot `slot` of the transfer memory and writes the whole
        slot to a cluster. */
    method ClusterWrite(contents: seq<byte>, slot: nat, c: nat) returns (code: int)
      requires Valid()
      requires g.IsCluster(c) ==> SlotAt(g, slot) + g.ClusterBytes() <= mem.Length
      requires g.IsCluster(c) ==> SlotAt(g, slot) + |contents| <= mem.Length
      modifies this`disk, this`calls, mem
      ensures Valid() && |disk| == |old(disk)|
      ensures calls == old(calls) + [Call(c, contents)]
      ensures code == if g.OnDisk(|disk|, c) then 0 else -1
      ensures mem[..] == if g.IsCluster(c) then Patch(old(mem[..]), SlotAt(g, slot), contents)
                         else old(mem[..])
      ensures code == 0 ==>
                disk == WriteCluster(g, old(disk), c, mem[SlotAt(g, slot)..SlotAt(g, slot) + g.ClusterBytes()])
      ensures code != 0 ==> disk == old(disk)
    {
      calls := calls + [Call(c, contents)];
      if c < 2 || c >= g.total { return -1; }
      var at := SlotAt(g, slot);
      CopyIn(contents, at);
      code := WriteSectors(g.ClusterStart(c), g.spc, at);
    }

    /** allocateFreeFAT: a read error answers 0xFFFFFFFF, which the unsigned test `< 0` lets pass as
        a cluster in use. */
    method AllocateFree() returns (c: nat)
      requires Valid()
      requires g.fatType == 16 ==> g.AllVisible()
      modifies this`disk, mem
      ensures Valid() && |disk| == |old(disk)|
      ensures mem[512..] == old(mem[512..])
      ensures g.fatType !in {16, 32} ==> c == BAD12 && disk == old(disk)
      ensures g.fatType in {16, 32} ==>
                var f := FirstFreeFrom(Table(g, old(disk)), 2);
                if f < g.total then
                  && c == f && disk == WriteEntry(g, old(disk), f, EndMark(g))
                  && g.FatSector(f) < |disk| && mem[..512] == disk[g.FatSector(f)]
                else c == BadMark(g) && disk == old(disk)
    {
      if g.fatType != 32 && g.fatType != 16 && g.fatType != 12 { return BAD12; }
      var bad := if g.fatType == 32 then BAD32 else if g.fatType == 16 then BAD16 else BAD12;
      var end := if g.fatType == 32 then END32 else if g.fatType == 16 then END16 else END12;
      ghost var t := Table(g, disk);
      var cluster := 2;
      while cluster < g.total
        invariant 2 <= cluster
        invariant disk == old(disk) && mem[512..] == old(mem[512..])
        invariant g.fatType in {16, 32} ==> FirstFreeFrom(t, cluster) == FirstFreeFrom(t, 2)
      {
        assert g.fatType == 16 ==> g.Visible(cluster);
        var status := FatRead(cluster);
        if status == 0 {
          var code := FatWrite(cluster, end);
          if code == 0 { return cluster; }
          return bad;
        }
        cluster := cluster + 1;
      }
      return bad;
    }

    /** How directoryAdd moves to the next cluster of a directory: follow the link, or at the end of
        the chain claim a cluster and link it. The link is kept in an unsigned variable, so a failed
        FATRead also looks like the end of the chain. */
    method NextOrExtend(c: nat) returns (next: int)
      requires Valid() && g.fatType == 32 && g.AllVisible() && g.IsCluster(c)
      modifies this`disk, mem
      ensures Valid() && |disk| == |old(disk)|
      ensures mem[512..] == old(mem[512..])
      ensures var t := old(Table(g, disk));
              && (t[c] == -1 ==> next == -1 && Table(g, disk) == After(t, Claim))
              && (t[c] != -1 ==> Table(g, disk) == After(t, Extend(c)))
              && (t[c] != -1 ==> next == if t[c] >= END32 && Full(t) then -1 else Table(g, disk)[c])
              && (t[c] != -1 ==> (next == -1 <==> t[c] >= END32 && Full(t)))
              && (0 <= t[c] < END32 || Full(t) ==> disk == old(disk))
              && (t[c] >= END32 && !Full(t) ==>
                    var f := FirstFreeFrom(t, 2);
                    disk == WriteEntry(g, WriteEntry(g, old(disk), f, END32), c, f))
    {
      var link := FatRead(c);
      var unsigned := if link < 0 then link + 0x1_0000_0000 else link;
      next := unsigned;
      if unsigned >= END32 {
        next := AllocateFree();
        ClaimOnDisk(g, old(disk));
        FirstFreeIsLeast(Table(g, old(disk)), 2);
        if next == BAD32 { return -1; }
        ExtendOnDisk(g, old(disk), c);
        var code := FatWrite(c, next);
        if code != 0 { return -1; }
      }
    }
  }

  /** The disk write of an allocation is the claiming step on the table. */
  lemma ClaimOnDisk(g: Geometry, disk: Disk)
    requires g.Valid() && g.fatType == 32 && g.AllVisible()
    ensures var f := FirstFreeFrom(Table(g, disk), 2);
            After(Table(g, disk), Claim) ==
              if f < g.total then Table(g, WriteEntry(g, disk, f, END32)) else Table(g, disk)
  {
    var t := Table(g, disk);
    if 2 <= g.total {
      FirstFreeIsLeast(t, 2);
      var f := FirstFreeFrom(t, 2);
      if f < g.total { WriteRefinesMap(g, disk, f, END32); }
    }
  }

  /** The two disk writes that claim a cluster and link it are the relinking step on the table, and the
      extending step when they are made at the end of a chain. */
  lemma ExtendOnDisk(g: Geometry, disk: Disk, c: nat)
    requires g.Valid() && g.fatType == 32 && g.AllVisible() && g.IsCluster(c)
    requires Table(g, disk)[c] != 0
    requires FirstFreeFrom(Table(g, disk), 2) < g.total
    ensures var t, f := Table(g, disk), FirstFreeFrom(Table(g, disk), 2);
            var m := WriteEntry(g, disk, f, END32);
            && t[f] == 0 && Entry(g, m, c) == t[c]
            && (t[c] == -1 ==> WriteEntry(g, m, c, f) == m)
            && (t[c] != -1 ==> Table(g, WriteEntry(g, m, c, f)) == After(t, Relink(c)))
            && (t[c] != -1 ==> After(t, Relink(c))[c] == f)
            && (t[c] >= END32 ==> After(t, Relink(c)) == After(t, Extend(c)))
  {
    var t, f := Table(g, disk), FirstFreeFrom(Table(g, disk), 2);
    var m := WriteEntry(g, disk, f, END32);
    FirstFreeIsLeast(t, 2);
    SetEntry(g, disk, f, END32);
    assert Entry(g, m, c) == Table(g, m)[c];
    if t[c] != -1 { SetEntry(g, m, c, f); }
  }

  lemma SetEntry(g: Geometry, disk: Disk, c: nat, v: nat)
    requires g.Valid() && g.fatType == 32 && g.AllVisible() && g.IsCluster(c)
    requires Table(g, disk)[c] != -1 && v < 0x1000_0000
    ensures Table(g, WriteEntry(g, disk, c, v)) == Table(g, disk)[c := v]
  {
    WriteRefinesMap(g, disk, c, v);
  }

  /** Claiming a cluster keeps it from being claimed again exactly when its entry is visible. */
  lemma ClaimedOnceIff(g: Geometry, disk: Disk)
    requires g.Valid() && g.fatType == 32 && 2 <= g.total
    requires FirstFreeFrom(Table(g, disk), 2) < g.total
    ensures var f := FirstFreeFrom(Table(g, disk), 2);
            FirstFreeFrom(Table(g, WriteEntry(g, disk, f, END32)), 2) != f <==> g.Visible(f)
  {
    var t := Table(g, disk);
    FirstFreeIsLeast(t, 2);
    var f := FirstFreeFrom(t, 2);
    WriteRefinesMap(g, disk, f, END32);
    FirstFreeIsLeast(Table(g, WriteEntry(g, disk, f, END32)), 2);
  }

  /** On a volume with more than one sector per cluster the allocator can hand out the same cluster
      for ever: it is safe on every disk exactly when all entries are visible. */
  lemma AllocatorSafeIff(g: Geometry)
    requires g.Valid() && g.fatType == 32
    ensures (forall disk: Disk :: var f := FirstFreeFrom(Table(g, disk), 2);
               f < g.total ==> FirstFreeFrom(Table(g, WriteEntry(g, disk, f, END32)), 2) != f)
            <==> g.AllVisible()
  {
    if g.AllVisible() {
      forall disk: Disk | FirstFreeFrom(Table(g, disk), 2) < g.total
        ensures var f := FirstFreeFrom(Table(g, disk), 2);
                FirstFreeFrom(Table(g, WriteEntry(g, disk, f, END32)), 2) != f
      {
        FirstFreeIsLeast(Table(g, disk), 2);
        ClaimedOnceIff(g, disk);
      }
    } else {
      AllVisibleIff(g);
      var disk := FilledFat(g);
      FirstFreeIsLeast(Table(g, disk), 2);
      ClaimedOnceIff(g, disk);
    }
  }

  /** A disk whose first FAT sector is full, while the next cluster's entry is invisible. */
  lemma FilledFat(g: Geometry) returns (disk: Disk)
    requires g.Valid() && g.fatType == 32 && g.spc > 1 && g.total > 128
    ensures FirstFreeFrom(Table(g, disk), 2) == 128 && !g.Visible(128)
  {
    var ones: Sector := seq(512, _ => 1);
    disk := seq(g.firstFat + 1, _ => ones);
    forall c: nat | 2 <= c <= 128
      ensures Entry(g, disk, c) == 0 <==> c == 128
    {
      EntryOfOnes(g, disk, c);
    }
    EntryOfOnes(g, disk, 128);
    FirstFreeIsLeast(Table(g, disk), 2);
  }

  lemma EntryOfOnes(g: Geometry, disk: Disk, c: nat)
    requires g.Valid() && g.fatType == 32 && g.spc > 1 && g.total > 128
    requires g.firstFat < |disk| && forall i :: 0 <= i < 512 ==> disk[g.firstFat][i] == 1
    requires 2 <= c <= 128
    ensures Entry(g, disk, c) == 0 <==> c == 128
    ensures g.Visible(c) <==> c != 128
  {
  }

  lemma TableEntry(g: Geometry, s: Sector, table: seq<byte>, at: nat)
    requires |table| == 32 * 1024 && table[..512] == s && at + g.Width() <= |table|
    ensures at + g.Width() <= 512 ==> EntryBits(g, table, at) == EntryBits(g, s, at)
    ensures 512 <= at && (forall i :: 512 <= i < |table| ==> table[i] == 0) ==> EntryBits(g, table, at) == 0
  {
    assert forall i :: 0 <= i < 512 ==> s[i] == table[i];
  }

  /** Sending the patched table back is writing the entry. */
  lemma TableWritten(g: Geometry, disk: Disk, c: nat, v: nat, table: seq<byte>, m: seq<byte>)
    requires g.Valid() && Entry(g, disk, c) != -1 && v < 0x1_0000_0000 && |m| >= 512
    requires |table| == 32 * 1024 && table[..512] == disk[g.FatSector(c)]
    ensures g.FatOffset(c) + g.Width() <= |table| && g.FatSector(c) < |disk|
    ensures var s := Patch(table, g.FatOffset(c), EntryBytes(g, v))[..512];
            && WriteEntry(g, disk, c, v) == disk[g.FatSector(c) := s]
            && Patch(FatLoaded(g, disk, c, m), 0, s) == FatLoaded(g, WriteEntry(g, disk, c, v), c, m)
  {
    EntryAligned(g, c);
    hide Quot, Rem;
    TablePatch(disk[g.FatSector(c)], table, g.FatOffset(c), EntryBytes(g, v));
    if !g.Visible(c) { assert disk[g.FatSector(c) := disk[g.FatSector(c)]] == disk; }
    assert Entry(g, WriteEntry(g, disk, c, v), c) != -1;
  }

  lemma TablePatch(s: Sector, table: seq<byte>, at: nat, bytes: seq<byte>)
    requires |table| == 32 * 1024 && table[..512] == s && at + |bytes| <= |table|
    ensures at + |bytes| <= 512 ==> Patch(table, at, bytes)[..512] == Patch(s, at, bytes)
    ensures 512 <= at ==> Patch(table, at, bytes)[..512] == s
  {
  }

  lemma ReadNothing(disk: Disk, sector: nat, m: seq<byte>, at: nat)
    requires sector <= |disk| && at <= |m|
    ensures Patch(m, at, Span(disk, sector, 0)) == m
  {
  }

  lemma ReadOneMore(disk: Disk, sector: nat, n: nat, m: seq<byte>, at: nat)
    requires sector + n < |disk| && at + 512 * n + 512 <= |m|
    ensures Patch(Patch(m, at, Span(disk, sector, n)), at + 512 * n, disk[sector + n])
         == Patch(m, at, Span(disk, sector, n + 1))
  {
    PatchAppend(m, at, Span(disk, sector, n), disk[sector + n]);
  }

  lemma SpanOne(disk: Disk, sector: nat)
    requires sector < |disk|
    ensures Span(disk, sector, 1) == disk[sector]
  {
    assert Span(disk, sector, 0) == [];
  }

  lemma StoreOne(disk: Disk, sector: nat, s: Sector)
    requires sector < |disk|
    ensures Store(disk, sector, 1, s) == disk[sector := s]
  {
    assert s[..|s| - 512] == [] && s[|s| - 512..] == s;
    assert Store(disk, sector, 0, []) == disk;
  }

  /** What the allocator stores and answers are the markers of the FAT type. */
  lemma MarkersOfType(g: Geometry)
    ensures EndMark(g) == g.EntryLimit() - 8 && BadMark(g) == g.EntryLimit() - 9
  {
  }
}
