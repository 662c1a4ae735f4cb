/** The page tables that setup_paging builds, and the processor's walk through them (32-bit paging in
    the Intel 64 and IA-32 Architectures Software Developer's Manual, volume 3A). */
module Paging {

  /** A 32-bit entry: frame address in the upper 20 bits, present and writable in the two lowest. */
  function Frame(e: nat): nat {
    e / 4096
  }

  predicate Present(e: nat) {
    e % 2 == 1
  }

  predicate Writable(e: nat) {
    e / 2 % 2 == 1
  }

  datatype Translation = NotPresent | Mapped(address: nat, writable: bool)

  /** The two-level walk for a virtual address. `table` is the page table at address `tableAt`. */
  function Walk(directory: seq<nat>, table: seq<nat>, tableAt: nat, address: nat): Translation
    requires |directory| == 1024 && |table| == 1024 && address < 0x1_0000_0000
  {
    var pde := directory[address / 0x40_0000];
    if !Present(pde) || Frame(pde) != tableAt / 4096 then NotPresent
    else
      var pte := table[address / 4096 % 1024];
      if !Present(pte) then NotPresent
      else Mapped(Frame(pte) * 4096 + address % 4096, Writable(pde) && Writable(pte))
  }

  const FRAMEBUFFER_ADDRESS: nat := 0xA_0000
  const FRAMEBUFFER_SIZE: nat := 25 * 600

  /** setup_paging. `tableAt` is the page-aligned address of the page table. */
  method SetupPaging(directory: array<nat>, table: array<nat>, tableAt: nat)
    requires directory.Length == 1024 && table.Length == 1024 && directory != table
    requires tableAt < 0x1_0000_0000 && tableAt % 4096 == 0
    modifies directory, table
    ensures forall i :: 0 <= i < 1024 ==> directory[i] == if i == 0 then tableAt + 3 else 2
    ensures forall i :: 0 <= i < 1024 ==> table[i] == 4096 * i + 3
  {
    for i := 0 to 1024
      invariant forall j :: 0 <= j < i ==> directory[j] == 2 && table[j] == 4096 * j + 3
    {
      directory[i] := 2;
      table[i] := 4096 * i + 3;
    }
    // The framebuffer's entries are given the values they already have.
    for i := 0 to FRAMEBUFFER_SIZE / 4096
      invariant forall j :: 0 <= j < 1024 ==> directory[j] == 2 && table[j] == 4096 * j + 3
    {
      table[FRAMEBUFFER_ADDRESS / 4096 + i] := FRAMEBUFFER_ADDRESS + 4096 * i + 3;
    }
    directory[0] := tableAt + 3;
  }

  /** After that, addresses below 4 MiB are mapped to themselves and writable, all others not present. */
  lemma IdentityMapped(directory: seq<nat>, table: seq<nat>, tableAt: nat, address: nat)
    requires |directory| == 1024 && |table| == 1024 && address < 0x1_0000_0000
    requires tableAt < 0x1_0000_0000 && tableAt % 4096 == 0
    requires forall i :: 0 <= i < 1024 ==> directory[i] == if i == 0 then tableAt + 3 else 2
    requires forall i :: 0 <= i < 1024 ==> table[i] == 4096 * i + 3
    ensures Walk(directory, table, tableAt, address) ==
              if address < 0x40_0000 then Mapped(address, true) else NotPresent
  {
    if address < 0x40_0000 {
      var page := address / 4096;
      assert address / 0x40_0000 == 0;
      assert page < 1024 && page % 1024 == page;
      EntryBits(tableAt / 4096);
      EntryBits(page);
      assert tableAt == 4096 * (tableAt / 4096);
      assert address == 4096 * page + address % 4096;
    } else {
      assert !Present(2);
    }
  }

  lemma EntryBits(frame: nat)
    ensures Frame(4096 * frame + 3) == frame
    ensures Present(4096 * frame + 3) && Writable(4096 * frame + 3)
  {
    PageOf(frame, 3);
    assert 4096 * frame + 3 == 2 * (2048 * frame + 1) + 1;
    Halved(2048 * frame + 1);
    Halved(1024 * frame);
  }

  lemma PageOf(k: nat, r: nat)
    requires r < 4096
    ensures (4096 * k + r) / 4096 == k && (4096 * k + r) % 4096 == r
  {
  }

  lemma Halved(k: nat)
    ensures (2 * k + 1) / 2 == k && (2 * k + 1) % 2 == 1
  {
  }
}
