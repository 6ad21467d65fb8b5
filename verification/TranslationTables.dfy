/** The translation tables of the kernel and the walk that the hardware makes through them (VMSAv8-64, 4 KiB granule,
    39-bit addresses). Descriptor fields occupy disjoint bits, so their combination is written as a sum. */
module TranslationTables {
  import opened Bytes

  const L2_SIZE := 0x20_0000
  const VA_LIMIT := 0x80_0000_0000
  const PA_LIMIT := 0x1_0000_0000_0000

  const RAM_BASE: u64 := 0x4000_0000
  const RAM_SIZE: u64 := 0x800_0000
  const GICD_BASE: u64 := 0x0800_0000
  const UART_BASE: u64 := 0x0900_0000
  const VIRTIO_BASE: u64 := 0x0a00_0000
  const ECAM_BASE: u64 := 0x40_1000_0000
  const ECAM_SIZE: u64 := 0x1000_0000

  const DESC_VALID := 1
  const DESC_TABLE := 2
  const ATTR_NORMAL := 0x4
  const AP_USER_RW := 0x40
  const AP_USER_RO := 0xc0
  const SH_INNER := 0x300
  const AF := 0x400
  const PXN := 0x20_0000_0000_0000
  const UXN := 0x40_0000_0000_0000

  const DEVICE_ATTRS: u64 := AF + PXN + UXN
  const RAM_ATTRS: u64 := AF + SH_INNER + ATTR_NORMAL
  const USER_CODE_ATTRS: u64 := AF + SH_INNER + ATTR_NORMAL + AP_USER_RO + PXN
  const USER_DATA_ATTRS: u64 := AF + SH_INNER + ATTR_NORMAL + AP_USER_RW + PXN + UXN

  function L1Index(a: u64): nat {
    a / 0x4000_0000 % 512
  }

  function L2Index(a: u64): nat {
    a / 0x20_0000 % 512
  }

  function L3Index(a: u64): nat {
    a / 0x1000 % 512
  }

  /** The five tables and the physical addresses of the four that other tables point to. */
  datatype Tables = Tables(l1: seq<u64>, low: seq<u64>, ram: seq<u64>, pci: seq<u64>, user: seq<u64>, at: Addresses)

  datatype Addresses = Addresses(low: u64, ram: u64, pci: u64, user: u64)

  predicate AddressesOk(at: Addresses) {
    && at.low < PA_LIMIT && at.ram < PA_LIMIT && at.pci < PA_LIMIT && at.user < PA_LIMIT
    && at.low % 4096 == 0 && at.ram % 4096 == 0 && at.pci % 4096 == 0 && at.user % 4096 == 0
    && at.low != at.ram && at.low != at.pci && at.low != at.user
    && at.ram != at.pci && at.ram != at.user && at.pci != at.user
  }

  predicate Shape(t: Tables) {
    |t.l1| == 512 && |t.low| == 512 && |t.ram| == 512 && |t.pci| == 512 && |t.user| == 512
  }

  // ---- What the code writes ----

  function TableDesc(table: u64): u64
    requires table < PA_LIMIT
  {
    table - table % 4096 + DESC_VALID + DESC_TABLE
  }

  function BlockDesc(address: u64, attrs: u64): u64
    requires address < PA_LIMIT && attrs < 0x8000_0000_0000_0000
  {
    address - address % 0x20_0000 + attrs + DESC_VALID
  }

  function PageDesc(address: u64, attrs: u64): u64
    requires address < PA_LIMIT && attrs < 0x8000_0000_0000_0000
  {
    address - address % 4096 + attrs + DESC_VALID + DESC_TABLE
  }

  function ZeroTable(): (s: seq<u64>)
    ensures |s| == 512
  {
    seq(512, _ => 0)
  }

  function BlockEntry(j: nat, from: nat, to: nat, first: u64, attrs: u64): u64
    requires j < 512 && to <= 512 && first + 512 * L2_SIZE < PA_LIMIT && attrs < 0x8000_0000_0000_0000
  {
    if from <= j < to then BlockDesc(first + (j - from) * 0x20_0000, attrs) else 0
  }

  /** A table whose entries from..to map the 2 MiB blocks from `first` on. */
  function BlockTable(from: nat, to: nat, first: u64, attrs: u64): (s: seq<u64>)
    requires from <= to <= 512 && first + 512 * L2_SIZE < PA_LIMIT && attrs < 0x8000_0000_0000_0000
    ensures |s| == 512
    ensures forall j :: 0 <= j < 512 ==> s[j] == BlockEntry(j, from, to, first, attrs)
  {
    seq(512, j requires 0 <= j < 512 => BlockEntry(j, from, to, first, attrs))
  }

  /** The tables that mmu_build_tables leaves. */
  function Built(at: Addresses): (t: Tables)
    requires AddressesOk(at)
    ensures Shape(t)
  {
    Tables(ZeroTable()[0 := TableDesc(at.low)][1 := TableDesc(at.ram)][256 := TableDesc(at.pci)],
           ZeroTable()[0 := TableDesc(at.user)]
             [64 := BlockDesc(GICD_BASE, DEVICE_ATTRS)][72 := BlockDesc(UART_BASE, DEVICE_ATTRS)]
             [80 := BlockDesc(VIRTIO_BASE, DEVICE_ATTRS)],
           BlockTable(0, 64, RAM_BASE, RAM_ATTRS), BlockTable(128, 256, ECAM_BASE, DEVICE_ATTRS), ZeroTable(), at)
  }

  // ---- What the hardware reads ----

  /** A translation: the physical address and the attribute bits of the last descriptor. */
  datatype Mapping = Mapping(pa: u64, attrs: u64)

  predicate IsValid(d: u64) {
    d % 2 == 1
  }

  predicate IsTable(d: u64) {
    d / 2 % 2 == 1
  }

  /** Bits 47 to 12 of a descriptor as an address. */
  function NextTable(d: u64): u64 {
    d / 4096 % 0x10_0000_0000 * 4096
  }

  /** Bits 47 to 21 of a block descriptor as an address. */
  function BlockBase(d: u64): u64 {
    d / 0x20_0000 % 0x800_0000 * 0x20_0000
  }

  /** The bits of a descriptor outside its address and its two type bits. */
  function AttrBits(d: u64): u64 {
    d % 4096 / 4 * 4 + d / 0x1_0000_0000_0000 * 0x1_0000_0000_0000
  }

  function TableAt(t: Tables, address: u64): Option<seq<u64>> {
    if address == t.at.low then Some(t.low)
    else if address == t.at.ram then Some(t.ram)
    else if address == t.at.pci then Some(t.pci)
    else if address == t.at.user then Some(t.user)
    else None
  }

  function WalkL3(table: seq<u64>, va: u64): Option<Mapping>
    requires |table| == 512 && va < VA_LIMIT
  {
    var d := table[L3Index(va)];
    if IsValid(d) && IsTable(d) then Some(Mapping(NextTable(d) + va % 4096, AttrBits(d))) else None
  }

  function WalkL2(t: Tables, table: seq<u64>, va: u64): Option<Mapping>
    requires Shape(t) && |table| == 512 && va < VA_LIMIT
  {
    var d := table[L2Index(va)];
    if !IsValid(d) then None
    else if !IsTable(d) then Some(Mapping(BlockBase(d) + va % 0x20_0000, AttrBits(d)))
    else match TableAt(t, NextTable(d))
      case None => None
      case Some(l3) => WalkL3(l3, va)
  }

  /** The translation of a virtual address; no level-1 block is ever written, so none is decoded. */
  function Walk(t: Tables, va: u64): Option<Mapping>
    requires Shape(t) && va < VA_LIMIT
  {
    var d := t.l1[L1Index(va)];
    if !IsValid(d) || !IsTable(d) then None
    else match TableAt(t, NextTable(d))
      case None => None
      case Some(l2) => WalkL2(t, l2, va)
  }

  // ---- Decoding what was encoded ----

  lemma TableDescDecoded(table: u64)
    requires table < PA_LIMIT && table % 4096 == 0
    ensures var d := TableDesc(table); IsValid(d) && IsTable(d) && NextTable(d) == table
  {
  }

  /** The attribute combinations that the kernel uses. */
  predicate KnownAttrs(attrs: u64) {
    attrs == DEVICE_ATTRS || attrs == RAM_ATTRS || attrs == USER_CODE_ATTRS || attrs == USER_DATA_ATTRS
  }

  /** Attribute bits lie above bit 47 or below bit 12. */
  lemma AttrsSplit(attrs: u64) returns (hi: nat, lo: nat)
    requires KnownAttrs(attrs)
    ensures attrs == hi * 0x1_0000_0000_0000 + lo && hi < 128 && lo < 4092 && lo % 4 == 0
  {
    hi, lo := attrs / 0x1_0000_0000_0000, attrs % 0x1_0000_0000_0000;
  }

  lemma BlockDescDecoded(address: u64, attrs: u64)
    requires address < PA_LIMIT && address % 0x20_0000 == 0 && KnownAttrs(attrs)
    ensures attrs < 0x8000_0000_0000_0000
    ensures var d := BlockDesc(address, attrs);
      IsValid(d) && !IsTable(d) && BlockBase(d) == address && AttrBits(d) == attrs
  {
    var hi, lo := AttrsSplit(attrs);
    hide KnownAttrs;
    DecodeBlock(hi, address / 0x20_0000, lo);
  }

  lemma PageDescDecoded(address: u64, attrs: u64)
    requires address < PA_LIMIT && address % 4096 == 0 && KnownAttrs(attrs)
    ensures attrs < 0x8000_0000_0000_0000
    ensures var d := PageDesc(address, attrs);
      IsValid(d) && IsTable(d) && NextTable(d) == address && AttrBits(d) == attrs
  {
    var hi, lo := AttrsSplit(attrs);
    hide KnownAttrs;
    DecodePage(hi, address / 4096, lo);
  }

  /** The low bits, the address bits and the high bits of a sum of disjoint fields. */
  lemma LowBits(page: nat, low: nat)
    requires low < 4096
    ensures (page * 4096 + low) % 4096 == low && (page * 4096 + low) / 4096 == page
    ensures (page * 4096 + low) % 2 == low % 2 && (page * 4096 + low) / 2 % 2 == low / 2 % 2
  {
  }

  lemma HighBits(hi: nat, rest: nat)
    requires rest < 0x1_0000_0000_0000
    ensures (hi * 0x1_0000_0000_0000 + rest) / 0x1_0000_0000_0000 == hi
  {
  }

  /** The fields of a page descriptor are found again in their sum. */
  lemma DecodePage(hi: nat, page: nat, lo: nat)
    requires hi < 128 && page < 0x10_0000_0000 && lo < 4092 && lo % 4 == 0
    ensures var d := hi * 0x1_0000_0000_0000 + page * 4096 + lo + 3;
      && IsValid(d) && IsTable(d) && NextTable(d) == page * 4096
      && AttrBits(d) == hi * 0x1_0000_0000_0000 + lo
  {
    var d := hi * 0x1_0000_0000_0000 + page * 4096 + lo + 3;
    var whole := hi * 0x10_0000_0000 + page;
    LowBits(whole, lo + 3);
    HighBits(hi, page * 4096 + lo + 3);
    assert d == whole * 4096 + (lo + 3) && whole % 0x10_0000_0000 == page;
  }

  /** The fields of a block descriptor are found again in their sum. */
  lemma DecodeBlock(hi: nat, block: nat, lo: nat)
    requires hi < 128 && block < 0x800_0000 && lo < 4092 && lo % 4 == 0
    ensures var d := hi * 0x1_0000_0000_0000 + block * 0x20_0000 + lo + 1;
      && IsValid(d) && !IsTable(d) && BlockBase(d) == block * 0x20_0000
      && AttrBits(d) == hi * 0x1_0000_0000_0000 + lo
  {
    var d := hi * 0x1_0000_0000_0000 + block * 0x20_0000 + lo + 1;
    var whole := hi * 0x10_0000_0000 + block * 512;
    LowBits(whole, lo + 1);
    HighBits(hi, block * 0x20_0000 + lo + 1);
    assert d == whole * 4096 + (lo + 1);
    BlockBits(hi, block, lo + 1);
  }

  lemma BlockBits(hi: nat, block: nat, low: nat)
    requires hi < 128 && block < 0x800_0000 && low < 4096
    ensures BlockBase(hi * 0x1_0000_0000_0000 + block * 0x20_0000 + low) == block * 0x20_0000
  {
    var d := hi * 0x1_0000_0000_0000 + block * 0x20_0000 + low;
    assert d == (hi * 0x800_0000 + block) * 0x20_0000 + low;
  }

  // ---- The kernel's own translations ----

  predicate InBlock(va: u64, base: u64) {
    base <= va < base + L2_SIZE
  }

  /** The identity on RAM, on the three low device blocks and on the PCI configuration space; nothing else. */
  function Expected(va: u64): Option<Mapping> {
    if RAM_BASE <= va < RAM_BASE + RAM_SIZE then Some(Mapping(va, RAM_ATTRS))
    else if InBlock(va, GICD_BASE) || InBlock(va, UART_BASE) || InBlock(va, VIRTIO_BASE) then
      Some(Mapping(va, DEVICE_ATTRS))
    else if ECAM_BASE <= va < ECAM_BASE + ECAM_SIZE then Some(Mapping(va, DEVICE_ATTRS))
    else None
  }

  lemma EmptyEntry()
    ensures !IsValid(0)
  {
  }

  /** A level-2 entry that maps an aligned block translates every address of the block to itself. */
  lemma WalkBlock(t: Tables, table: seq<u64>, va: u64, base: u64, attrs: u64)
    requires Shape(t) && |table| == 512 && va < VA_LIMIT && base % 0x20_0000 == 0 && InBlock(va, base)
      && KnownAttrs(attrs)
    requires attrs < 0x8000_0000_0000_0000 && table[L2Index(va)] == BlockDesc(base, attrs)
    ensures WalkL2(t, table, va) == Some(Mapping(va, attrs))
  {
    BlockDescDecoded(base, attrs);
    hide BlockDesc, BlockBase, AttrBits, IsValid, IsTable, KnownAttrs, L2Index;
    assert va % 0x20_0000 == va - base;
  }

  lemma WalkEmpty(t: Tables, table: seq<u64>, va: u64)
    requires Shape(t) && |table| == 512 && va < VA_LIMIT && table[L2Index(va)] == 0
    ensures WalkL2(t, table, va) == None
  {
  }

  /** Which level-1 entry a region of the address space uses. */
  lemma L1Regions(va: u64)
    requires va < VA_LIMIT
    ensures L1Index(va) < 512
    ensures va < 0x4000_0000 <==> L1Index(va) == 0
    ensures 0x4000_0000 <= va < 0x8000_0000 <==> L1Index(va) == 1
    ensures 0x40_0000_0000 <= va < 0x40_4000_0000 <==> L1Index(va) == 256
  {
  }

  /** The level-1 table sends the three gigabytes in use to their level-2 tables and faults everywhere else. */
  lemma WalkTop(at: Addresses, user: seq<u64>, va: u64)
    requires AddressesOk(at) && |user| == 512 && va < VA_LIMIT
    ensures var t := Built(at).(user := user);
      Walk(t, va) ==
        if va < 0x4000_0000 then WalkL2(t, t.low, va)
        else if va < 0x8000_0000 then WalkL2(t, t.ram, va)
        else if 0x40_0000_0000 <= va < 0x40_4000_0000 then WalkL2(t, t.pci, va)
        else None
  {
    TableDescDecoded(at.low);
    TableDescDecoded(at.ram);
    TableDescDecoded(at.pci);
    EmptyEntry();
    hide TableDesc, NextTable, IsValid, IsTable, WalkL2, BlockTable, BlockDesc, L1Index;
    var t := Built(at).(user := user);
    L1Regions(va);
  }

  lemma WalkLow(at: Addresses, user: seq<u64>, va: u64)
    requires AddressesOk(at) && |user| == 512 && va < 0x4000_0000
    ensures var t := Built(at).(user := user);
      WalkL2(t, t.low, va) == if va < 0x20_0000 then WalkL3(user, va) else Expected(va)
  {
    var t := Built(at).(user := user);
    var j := L2Index(va);
    assert j == va / 0x20_0000;
    if j == 0 {
      TableDescDecoded(at.user);
      hide TableDesc, NextTable, IsValid, IsTable, BlockTable, BlockDesc, WalkL3;
    } else if j == 64 {
      WalkBlock(t, t.low, va, GICD_BASE, DEVICE_ATTRS);
    } else if j == 72 {
      WalkBlock(t, t.low, va, UART_BASE, DEVICE_ATTRS);
    } else if j == 80 {
      WalkBlock(t, t.low, va, VIRTIO_BASE, DEVICE_ATTRS);
    } else {
      WalkEmpty(t, t.low, va);
    }
  }

  /** Where an address falls within its gigabyte. */
  lemma IndexWithin(va: u64, base: u64)
    requires base % 0x4000_0000 == 0 && base <= va < base + 0x4000_0000
    ensures L2Index(va) < 512
    ensures base + L2Index(va) * 0x20_0000 <= va < base + (L2Index(va) + 1) * 0x20_0000
  {
    var q, j := base / 0x4000_0000, (va - base) / 0x20_0000;
    assert va / 0x20_0000 == 512 * q + j;
    Mod512(q, j);
  }

  lemma Mod512(q: nat, j: nat)
    requires j < 512
    ensures (512 * q + j) % 512 == j
  {
  }

  lemma WalkBlockTable(t: Tables, va: u64, base: u64, from: nat, to: nat, first: u64, attrs: u64)
    requires Shape(t) && base % 0x4000_0000 == 0 && base <= va < base + 0x4000_0000 && va < VA_LIMIT
    requires from <= to <= 512 && first == base + from * 0x20_0000 && first + 512 * L2_SIZE < PA_LIMIT
    requires KnownAttrs(attrs) && attrs < 0x8000_0000_0000_0000
    ensures WalkL2(t, BlockTable(from, to, first, attrs), va)
         == if base + from * 0x20_0000 <= va < base + to * 0x20_0000 then Some(Mapping(va, attrs)) else None
  {
    hide BlockTable, BlockDesc, WalkL2, KnownAttrs, L2Index;
    IndexWithin(va, base);
    var table, j := BlockTable(from, to, first, attrs), L2Index(va);
    assert table[j] == BlockEntry(j, from, to, first, attrs);
    if from <= j < to {
      assert first + (j - from) * 0x20_0000 == base + j * 0x20_0000;
      WalkBlock(t, table, va, base + j * 0x20_0000, attrs);
    } else {
      WalkEmpty(t, table, va);
    }
  }

  /** After mmu_build_tables, whatever the user table holds: addresses from 2 MiB on translate to themselves in RAM, the
      device blocks and the configuration space, and fault everywhere else; below 2 MiB the user table decides. */
  lemma KernelTranslations(at: Addresses, user: seq<u64>, va: u64)
    requires AddressesOk(at) && |user| == 512 && va < VA_LIMIT
    ensures Walk(Built(at).(user := user), va) == if va < 0x20_0000 then WalkL3(user, va) else Expected(va)
  {
    var t := Built(at).(user := user);
    hide BlockTable, WalkL2, Walk, WalkL3, BlockDesc, TableDesc;
    WalkTop(at, user, va);
    if va < 0x4000_0000 {
      WalkLow(at, user, va);
    } else if va < 0x8000_0000 {
      WalkBlockTable(t, va, 0x4000_0000, 0, 64, RAM_BASE, RAM_ATTRS);
    } else if 0x40_0000_0000 <= va < 0x40_4000_0000 {
      WalkBlockTable(t, va, 0x40_0000_0000, 128, 256, ECAM_BASE, DEVICE_ATTRS);
    }
  }

  /** Right after mmu_build_tables nothing below 2 MiB is mapped. */
  lemma FreshTranslations(at: Addresses, va: u64)
    requires AddressesOk(at) && va < VA_LIMIT
    ensures Walk(Built(at), va) == Expected(va)
  {
    hide Walk, Expected;
    KernelTranslations(at, ZeroTable(), va);
    assert Built(at).(user := ZeroTable()) == Built(at);
    LowUnmapped(va);
  }

  lemma LowUnmapped(va: u64)
    requires va < VA_LIMIT
    ensures WalkL3(ZeroTable(), va) == None && (va < 0x20_0000 ==> Expected(va) == None)
  {
  }

  // ---- User programs ----

  /** mmu_map_user_code_page and mmu_map_user_data_page. */
  function MapUser(user: seq<u64>, va: u64, pa: u64, attrs: u64): (r: seq<u64>)
    requires |user| == 512 && pa < PA_LIMIT && attrs < 0x8000_0000_0000_0000
    ensures |r| == 512
  {
    user[L3Index(va) := PageDesc(pa, attrs)]
  }

  /** Code pages are read-only and executable for EL0, data pages writable and never executable. */
  function UserAttrs(writable: bool): (attrs: u64)
    ensures KnownAttrs(attrs) && attrs < 0x8000_0000_0000_0000
  {
    if writable then USER_DATA_ATTRS else USER_CODE_ATTRS
  }

  /** AP[1]: EL0 has access. */
  predicate El0CanRead(attrs: u64) {
    attrs / 64 % 2 == 1
  }

  /** AP[1] without AP[2], which makes a page read-only. */
  predicate El0CanWrite(attrs: u64) {
    attrs / 64 % 4 == 1
  }

  /** UXN alone decides whether EL0 may execute. */
  predicate El0CanExecute(attrs: u64) {
    attrs / 0x40_0000_0000_0000 % 2 == 0
  }

  predicate El1CanExecute(attrs: u64) {
    attrs / 0x20_0000_0000_0000 % 2 == 0
  }

  /** No user page is both writable and executable for EL0, and the kernel executes none. */
  lemma WriteOrExecute(writable: bool)
    ensures El0CanRead(UserAttrs(writable)) && El0CanWrite(UserAttrs(writable)) == writable
    ensures El0CanExecute(UserAttrs(writable)) == !writable
    ensures !El1CanExecute(UserAttrs(writable))
  {
  }

  /** Physical pages as the allocator hands them out. */
  predicate PagesOk(pages: seq<u64>) {
    forall k :: 0 <= k < |pages| ==> pages[k] < PA_LIMIT && pages[k] % 4096 == 0
  }

  /** The mapping loop over the first n program pages. */
  function MapPages(user: seq<u64>, base: u64, pages: seq<u64>, writable: seq<bool>, n: nat): (r: seq<u64>)
    requires |user| == 512 && n <= |pages| == |writable| && PagesOk(pages) && base + n * 4096 < TWO_64
    ensures |r| == 512
  {
    if n == 0 then user
    else MapUser(MapPages(user, base, pages, writable, n - 1), base + (n - 1) * 4096, pages[n - 1],
                 UserAttrs(writable[n - 1]))
  }

  const STACK_VA: u64 := 0x1F_F000

  /** The user table when user_run_loaded_pages enters EL0. */
  function MapProgram(user: seq<u64>, base: u64, pages: seq<u64>, writable: seq<bool>, stack: u64): (r: seq<u64>)
    requires |user| == 512 && |pages| == |writable| && PagesOk(pages) && base + |pages| * 4096 < TWO_64
      && stack < PA_LIMIT
    ensures |r| == 512
  {
    MapUser(MapPages(user, base, pages, writable, |pages|), STACK_VA, stack, UserAttrs(true))
  }

  /** Below 2 MiB a page's entry is its page number: distinct pages never share an entry. */
  lemma EntryOf(va: u64)
    requires va < 0x20_0000
    ensures L3Index(va) == va / 4096 < 512
  {
  }

  /** The entries after the mapping loop. */
  lemma {:induction false} MapPagesEntries(user: seq<u64>, base: u64, pages: seq<u64>, writable: seq<bool>, n: nat,
                                           e: nat)
    requires |user| == 512 && n <= |pages| == |writable| && PagesOk(pages)
    requires base % 4096 == 0 && base + n * 4096 <= 0x20_0000 && e < 512
    ensures MapPages(user, base, pages, writable, n)[e]
         == if base / 4096 <= e < base / 4096 + n then
              PageDesc(pages[e - base / 4096], UserAttrs(writable[e - base / 4096]))
            else user[e]
  {
    hide PageDesc, UserAttrs;
    if n != 0 {
      MapPagesEntries(user, base, pages, writable, n - 1, e);
      EntryOf(base + (n - 1) * 4096);
      assert (base + (n - 1) * 4096) / 4096 == base / 4096 + n - 1;
    }
  }

  lemma WalkPage(user: seq<u64>, va: u64, page: u64, attrs: u64)
    requires |user| == 512 && va < 0x20_0000 && page < PA_LIMIT && page % 4096 == 0 && KnownAttrs(attrs)
    requires attrs < 0x8000_0000_0000_0000 && user[va / 4096] == PageDesc(page, attrs)
    ensures page + va % 4096 < TWO_64
    ensures WalkL3(user, va) == Some(Mapping(page + va % 4096, attrs))
  {
    EntryOf(va);
    PageDescDecoded(page, attrs);
    hide PageDesc, NextTable, AttrBits, IsValid, IsTable, KnownAttrs;
  }

  /** After the mapping loop: byte i of the image is found at byte i % 4096 of program page i / 4096, with the rights of
      that page; the stack page translates to its own page; and every other translation, the kernel's included, is what
      it was before. */
  lemma ProgramTranslations(at: Addresses, user: seq<u64>, base: u64, pages: seq<u64>, writable: seq<bool>, stack: u64,
                            va: u64)
    requires AddressesOk(at) && |user| == 512 && |pages| == |writable| && PagesOk(pages)
    requires stack < PA_LIMIT && stack % 4096 == 0
    requires base % 4096 == 0 && 0x10000 <= base && base + |pages| * 4096 <= STACK_VA && va < VA_LIMIT
    ensures var t := Built(at).(user := MapProgram(user, base, pages, writable, stack));
      if base <= va < base + |pages| * 4096 then
        var k := (va - base) / 4096;
        && k < |pages| && pages[k] + va % 4096 < TWO_64
        && Walk(t, va) == Some(Mapping(pages[k] + va % 4096, UserAttrs(writable[k])))
      else if STACK_VA <= va < STACK_VA + 4096 then
        stack + va % 4096 < TWO_64 && Walk(t, va) == Some(Mapping(stack + va % 4096, UserAttrs(true)))
      else Walk(t, va) == Walk(Built(at).(user := user), va)
  {
    hide Walk, WalkL3, PageDesc, Expected, KnownAttrs, MapPages, UserAttrs;
    var user' := MapProgram(user, base, pages, writable, stack);
    KernelTranslations(at, user, va);
    KernelTranslations(at, user', va);
    if va < 0x20_0000 {
      MapPagesEntries(user, base, pages, writable, |pages|, va / 4096);
      EntryOf(va);
      EntryOf(STACK_VA);
      if base <= va < base + |pages| * 4096 {
        var k := (va - base) / 4096;
        assert va / 4096 == base / 4096 + k;
        WalkPage(user', va, pages[k], UserAttrs(writable[k]));
      } else if STACK_VA <= va {
        WalkPage(user', va, stack, UserAttrs(true));
      } else {
        SameEntry(user, user', va);
      }
    }
  }

  lemma SameEntry(user: seq<u64>, user': seq<u64>, va: u64)
    requires |user| == 512 == |user'| && va < 0x20_0000 && user'[va / 4096] == user[va / 4096]
    ensures WalkL3(user', va) == WalkL3(user, va)
  {
    EntryOf(va);
  }

  // ---- The map of the kernel in numbers ----

  /** Bits 2 to 4: which entry of MAIR_EL1 holds the memory type; the code puts device memory at 0 and write-back memory
      at 1. */
  function MemoryType(attrs: u64): nat {
    attrs / 4 % 8
  }

  /** Bits 8 and 9; 3 is inner shareable. */
  function Shareability(attrs: u64): nat {
    attrs / 256 % 4
  }

  /** Bit 10: without it the first access faults. */
  predicate AccessFlag(attrs: u64) {
    attrs / 1024 % 2 == 1
  }

  /** From 2 MiB on exactly these addresses are mapped, each to itself and accessible: RAM as inner-shareable write-back
      memory that the kernel may execute, and the interrupt controller, the UART, the virtio blocks and the PCI
      configuration space as device memory that nobody may execute. */
  lemma KernelMap(at: Addresses, user: seq<u64>, va: u64)
    requires AddressesOk(at) && |user| == 512 && 0x20_0000 <= va < VA_LIMIT
    ensures var w := Walk(Built(at).(user := user), va);
      var ram := 0x4000_0000 <= va < 0x4800_0000;
      var device := || 0x0800_0000 <= va < 0x0820_0000 || 0x0900_0000 <= va < 0x0920_0000
                    || 0x0a00_0000 <= va < 0x0a20_0000 || 0x40_1000_0000 <= va < 0x40_2000_0000;
      && (w.Some? <==> ram || device)
      && (w.Some? ==> w.value.pa == va && AccessFlag(w.value.attrs))
      && (ram ==> MemoryType(w.value.attrs) == 1 && Shareability(w.value.attrs) == 3 && El1CanExecute(w.value.attrs))
      && (device ==> MemoryType(w.value.attrs) == 0 && !El1CanExecute(w.value.attrs) && !El0CanExecute(w.value.attrs))
  {
    hide Walk, Built;
    KernelTranslations(at, user, va);
  }

  /** User pages are accessible inner-shareable write-back memory. */
  lemma UserMemoryType(writable: bool)
    ensures var a := UserAttrs(writable); AccessFlag(a) && MemoryType(a) == 1 && Shareability(a) == 3
  {
  }

  // ---- What EL0 may reach ----

  /** A program as it is handed to the mapping loop. */
  datatype Mapped = Mapped(base: u64, pages: seq<u64>, writable: seq<bool>, stack: u64)

  predicate MappedOk(m: Mapped) {
    && |m.pages| == |m.writable| && PagesOk(m.pages) && m.stack < PA_LIMIT && m.stack % 4096 == 0
    && m.base % 4096 == 0 && 0x10000 <= m.base && m.base + |m.pages| * 4096 <= STACK_VA
  }

  /** The user table after these programs have been run one after the other since the tables were built. */
  function MapAll(programs: seq<Mapped>): (user: seq<u64>)
    requires forall k :: 0 <= k < |programs| ==> MappedOk(programs[k])
    ensures |user| == 512
  {
    if programs == [] then ZeroTable()
    else
      var m := programs[|programs| - 1];
      assert MappedOk(m);
      MapProgram(MapAll(programs[..|programs| - 1]), m.base, m.pages, m.writable, m.stack)
  }

  /** Whether this is an address of a user page, and then whether of a writable one: the last program that has a page
      there decides. */
  function UserPage(programs: seq<Mapped>, va: u64): Option<bool>
    requires forall k :: 0 <= k < |programs| ==> MappedOk(programs[k])
  {
    if programs == [] then None
    else
      var m := programs[|programs| - 1];
      assert MappedOk(m);
      if m.base <= va < m.base + |m.pages| * 4096 then Some(m.writable[(va - m.base) / 4096])
      else if STACK_VA <= va < STACK_VA + 4096 then Some(true)
      else UserPage(programs[..|programs| - 1], va)
  }

  lemma {:induction false} MapAllWalk(at: Addresses, programs: seq<Mapped>, va: u64)
    requires AddressesOk(at) && va < VA_LIMIT && forall k :: 0 <= k < |programs| ==> MappedOk(programs[k])
    ensures var w := Walk(Built(at).(user := MapAll(programs)), va);
      match UserPage(programs, va)
      case None => w == Expected(va)
      case Some(writable) => w.Some? && w.value.attrs == UserAttrs(writable)
  {
    hide Walk, Built, Expected, UserAttrs, MapProgram;
    if programs == [] {
      FreshTranslations(at, va);
      BuiltUser(at);
    } else {
      var m, init := programs[|programs| - 1], programs[..|programs| - 1];
      MapAllWalk(at, init, va);
      ProgramTranslations(at, MapAll(init), m.base, m.pages, m.writable, m.stack, va);
    }
  }

  lemma BuiltUser(at: Addresses)
    requires AddressesOk(at)
    ensures Built(at).(user := ZeroTable()) == Built(at)
  {
  }

  /** Whatever programs have run: EL0 reads exactly the user pages mapped so far and writes exactly the writable ones
      among them. But it may execute, besides their other pages, all of RAM: the kernel's blocks do not forbid it. */
  lemma UserIsolation(at: Addresses, programs: seq<Mapped>, va: u64)
    requires AddressesOk(at) && va < VA_LIMIT && forall k :: 0 <= k < |programs| ==> MappedOk(programs[k])
    ensures var w := Walk(Built(at).(user := MapAll(programs)), va);
      var page := UserPage(programs, va);
      && (w.Some? && El0CanRead(w.value.attrs) <==> page.Some?)
      && (w.Some? && El0CanWrite(w.value.attrs) <==> page == Some(true))
      && (w.Some? && El0CanExecute(w.value.attrs) <==> page == Some(false) || RAM_BASE <= va < RAM_BASE + RAM_SIZE)
  {
    hide Walk, Built, MapAll, UserAttrs, El0CanRead, El0CanWrite, El0CanExecute;
    MapAllWalk(at, programs, va);
    KernelRights();
    UserPageLow(programs, va);
    WriteOrExecute(true);
    WriteOrExecute(false);
  }

  /** Neither the kernel's RAM nor the devices give EL0 data access, and only the devices forbid it to execute. */
  lemma KernelRights()
    ensures !El0CanRead(RAM_ATTRS) && !El0CanWrite(RAM_ATTRS) && El0CanExecute(RAM_ATTRS)
    ensures !El0CanRead(DEVICE_ATTRS) && !El0CanWrite(DEVICE_ATTRS) && !El0CanExecute(DEVICE_ATTRS)
  {
  }

  lemma {:induction false} UserPageLow(programs: seq<Mapped>, va: u64)
    requires forall k :: 0 <= k < |programs| ==> MappedOk(programs[k])
    ensures UserPage(programs, va).Some? ==> va < 0x20_0000
  {
    if programs != [] {
      UserPageLow(programs[..|programs| - 1], va);
    }
  }
}
