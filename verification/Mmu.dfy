/** The MMU code: the static tables, filled at boot and extended when a program is mapped. */
module Mmu {
  import opened Bytes
  import opened TranslationTables

  class Tables {
    const l1: array<u64>
    const low: array<u64>
    const ram: array<u64>
    const pci: array<u64>
    const user: array<u64>
    const at: Addresses

    ghost predicate Valid() {
      && AddressesOk(at)
      && l1.Length == 512 && low.Length == 512 && ram.Length == 512 && pci.Length == 512 && user.Length == 512
      && l1 != low && l1 != ram && l1 != pci && l1 != user && low != ram && low != pci && low != user
      && ram != pci && ram != user && pci != user
    }

    ghost function View(): TranslationTables.Tables
      reads l1, low, ram, pci, user
    {
      TranslationTables.Tables(l1[..], low[..], ram[..], pci[..], user[..], at)
    }

    constructor (at: Addresses)
      requires AddressesOk(at)
      ensures Valid() && this.at == at && fresh(l1) && fresh(low) && fresh(ram) && fresh(pci) && fresh(user)
    {
      this.at := at;
      l1, low, ram := new u64[512](_ => 0), new u64[512](_ => 0), new u64[512](_ => 0);
      pci, user := new u64[512](_ => 0), new u64[512](_ => 0);
    }

    /** memset of one table. */
    method Clear(table: array<u64>)
      requires table.Length == 512
      modifies table
      ensures table[..] == ZeroTable()
    {
      forall i | 0 <= i < 512 {
        table[i] := 0;
      }
    }

    /** The loop that maps the 2 MiB blocks from `start` to `end`, whose first has table index `from`. */
    method MapBlocks(table: array<u64>, start: u64, end: u64, attrs: u64, ghost from: nat, ghost to: nat)
      requires table.Length == 512 && table[..] == ZeroTable() && attrs < 0x8000_0000_0000_0000
      requires start % 0x20_0000 == 0 && from <= to <= 512 && end == start + (to - from) * 0x20_0000
      requires L2Index(start) == from && start + 512 * L2_SIZE < PA_LIMIT
      modifies table
      ensures table[..] == BlockTable(from, to, start, attrs)
    {
      hide BlockDesc;
      var address := start;
      ghost var j := from;
      while address < end
        invariant from <= j <= to && address == start + (j - from) * 0x20_0000
        invariant forall i :: 0 <= i < 512 ==> table[i] == BlockEntry(i, from, j, start, attrs)
        decreases end - address
      {
        NextIndex(start, from, j);
        MapL2Block(table, address, attrs);
        address := address + L2_SIZE;
        j := j + 1;
      }
    }

    /** mmu_build_tables. */
    method BuildTables()
      requires Valid()
      modifies l1, low, ram, pci, user
      ensures View() == Built(at)
    {
      hide BlockDesc, TableDesc, ZeroTable, BlockTable, L1Index, L2Index;
      FixedIndexes();
      Clear(l1);
      Clear(low);
      Clear(ram);
      Clear(pci);
      Clear(user);
      MapL1Table(0, at.low);
      MapL1Table(RAM_BASE, at.ram);
      MapL2Table(low, 0, at.user);
      MapL1Table(ECAM_BASE, at.pci);
      MapL2Block(low, GICD_BASE, DEVICE_ATTRS);
      MapL2Block(low, UART_BASE, DEVICE_ATTRS);
      MapL2Block(low, VIRTIO_BASE, DEVICE_ATTRS);
      MapBlocks(ram, RAM_BASE, RAM_BASE + RAM_SIZE, RAM_ATTRS, 0, 64);
      MapBlocks(pci, ECAM_BASE, ECAM_BASE + ECAM_SIZE, DEVICE_ATTRS, 128, 256);
    }

    method MapL1Table(va: u64, next: u64)
      requires l1.Length == 512 && next < PA_LIMIT
      modifies l1
      ensures l1[..] == old(l1[..])[L1Index(va) := TableDesc(next)]
    {
      hide TableDesc;
      l1[L1Index(va)] := TableDesc(next);
    }

    method MapL2Table(table: array<u64>, va: u64, next: u64)
      requires table.Length == 512 && next < PA_LIMIT
      modifies table
      ensures table[..] == old(table[..])[L2Index(va) := TableDesc(next)]
    {
      hide TableDesc;
      table[L2Index(va)] := TableDesc(next);
    }

    method MapL2Block(table: array<u64>, address: u64, attrs: u64)
      requires table.Length == 512 && address < PA_LIMIT && attrs < 0x8000_0000_0000_0000
      modifies table
      ensures table[..] == old(table[..])[L2Index(address) := BlockDesc(address, attrs)]
    {
      hide BlockDesc;
      table[L2Index(address)] := BlockDesc(address, attrs);
    }

    method MapUserPage(va: u64, pa: u64, attrs: u64)
      requires Valid() && pa < PA_LIMIT && attrs < 0x8000_0000_0000_0000
      modifies user
      ensures user[..] == MapUser(old(user[..]), va, pa, attrs)
    {
      user[L3Index(va)] := PageDesc(pa, attrs);
    }

    /** The mapping loop of user_run_loaded_pages and the mapping of the stack page. */
    method MapLoadedPages(base: u64, pages: seq<u64>, writable: seq<bool>, stack: u64)
      requires Valid() && |pages| == |writable| && PagesOk(pages) && base + |pages| * 4096 < TWO_64 && stack < PA_LIMIT
      modifies user
      ensures user[..] == MapProgram(old(user[..]), base, pages, writable, stack)
    {
      hide PageDesc, UserAttrs, MapUser;
      for pageIndex := 0 to |pages|
        invariant user[..] == MapPages(old(user[..]), base, pages, writable, pageIndex)
      {
        MapUserPage(base + pageIndex * 4096, pages[pageIndex], UserAttrs(writable[pageIndex]));
      }
      MapUserPage(STACK_VA, stack, UserAttrs(true));
    }
  }

  lemma FixedIndexes()
    ensures L1Index(0) == 0 && L1Index(RAM_BASE) == 1 && L1Index(ECAM_BASE) == 256
    ensures L2Index(0) == 0 && L2Index(GICD_BASE) == 64 && L2Index(UART_BASE) == 72 && L2Index(VIRTIO_BASE) == 80
    ensures L2Index(RAM_BASE) == 0 && L2Index(ECAM_BASE) == 128
  {
  }

  lemma NextIndex(start: u64, from: nat, j: nat)
    requires L2Index(start) == from <= j < 512 && start % 0x20_0000 == 0
    ensures start + (j - from) * 0x20_0000 < TWO_64 ==> L2Index(start + (j - from) * 0x20_0000) == j
  {
    assert (start + (j - from) * 0x20_0000) / 0x20_0000 == start / 0x20_0000 + (j - from);
  }
}
