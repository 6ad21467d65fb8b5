/** ELF64 headers, the checks of the user program loader, and the image a program asks for. */
module ElfFormat {
  import opened Bytes

  const PAGE_SIZE := 4096
  const USER_CODE_VA := 0x10000
  const USER_LIMIT := 0x1FF000
  const MAX_PROGRAM_PAGES := 495
  const EHDR_SIZE := 64
  const PHDR_SIZE := 56
  const PT_LOAD: u32 := 1

  datatype Ehdr = Ehdr(ident: seq<byte>, kind: u16, machine: u16, version: u32, entry: u64, phoff: u64,
                       ehsize: u16, phentsize: u16, phnum: u16)

  datatype Phdr = Phdr(kind: u32, flags: u32, offset: u64, vaddr: u64, filesz: u64, memsz: u64)

  function DecodeEhdr(s: seq<byte>): (h: Ehdr)
    requires |s| == EHDR_SIZE
    ensures |h.ident| == 16
  {
    Ehdr(s[..16], U16At(s, 16), U16At(s, 18), U32At(s, 20), U64At(s, 24), U64At(s, 32),
         U16At(s, 52), U16At(s, 54), U16At(s, 56))
  }

  function DecodePhdr(s: seq<byte>): Phdr
    requires |s| == PHDR_SIZE
  {
    Phdr(U32At(s, 0), U32At(s, 4), U64At(s, 8), U64At(s, 16), U64At(s, 32), U64At(s, 40))
  }

  function Add64(a: u64, b: u64): u64 {
    (a + b) % 0x1_0000_0000_0000_0000
  }

  function PageDown(v: u64): u64 {
    v - v % 4096
  }

  /** Rounds up to a page in 64-bit arithmetic, so that the last page of the address space rounds to 0. */
  function PageUp(v: u64): u64 {
    PageDown(Add64(v, 4095))
  }

  /** user_elf_header_valid. */
  predicate EhdrValid(h: Ehdr, fileSize: u32)
    requires |h.ident| == 16
  {
    var end := Add64(h.phoff, h.phnum * 56);
    && fileSize >= EHDR_SIZE
    && h.ident[0] == 0x7f && h.ident[1] == 69 && h.ident[2] == 76 && h.ident[3] == 70
    && h.ident[4] == 2 && h.ident[5] == 1 && h.ident[6] == 1 && h.version == 1
    && h.machine == 183 && h.kind == 2
    && h.ehsize == EHDR_SIZE && h.phentsize == PHDR_SIZE && h.phnum != 0
    && !(end < h.phoff || end > fileSize)
  }

  predicate Loads(p: Phdr) {
    p.kind == PT_LOAD && p.memsz != 0
  }

  /** The checks that the first pass makes on one loadable header. */
  predicate PhdrValid(p: Phdr, fileSize: u32) {
    && p.memsz >= p.filesz
    && !(Add64(p.offset, p.filesz) < p.offset || Add64(p.offset, p.filesz) > fileSize)
    && !(Add64(p.vaddr, p.memsz) < p.vaddr)
    && PageDown(p.vaddr) >= USER_CODE_VA && PageUp(Add64(p.vaddr, p.memsz)) <= USER_LIMIT
  }

  /** The end of this segment is in the last page of the address space: its rounded end is 0. */
  predicate EndWraps(p: Phdr) {
    p.vaddr + p.memsz + 4095 >= TWO_64
  }

  /** What the first pass has found: the lowest rounded start and the highest rounded end so far. */
  datatype Extent = Extent(base: u64, end: u64, found: bool)

  function Extend(x: Extent, p: Phdr): Extent {
    var start, end := PageDown(p.vaddr), PageUp(Add64(p.vaddr, p.memsz));
    Extent(if !x.found || start < x.base then start else x.base,
           if !x.found || end > x.end then end else x.end, true)
  }

  /** The first pass over the first n headers; None when one of them is refused. */
  function PassOne(ps: seq<Phdr>, fileSize: u32): Option<Extent> {
    if ps == [] then Some(Extent(TWO_64 - 1, 0, false))
    else
      var p := ps[|ps| - 1];
      match PassOne(ps[..|ps| - 1], fileSize)
      case None => None
      case Some(x) =>
        if !Loads(p) then Some(x)
        else if !PhdrValid(p, fileSize) then None
        else Some(Extend(x, p))
  }

  /** user_code_page_count, with its cast to 32 bits. */
  function PageCount(size: u64): u32 {
    Add64(size, 4095) / 4096 % 0x1_0000_0000
  }

  /** user_program_range_valid. */
  predicate ProgramRangeValid(base: u64, pageCount: u32) {
    && pageCount != 0 && pageCount <= MAX_PROGRAM_PAGES
    && base >= USER_CODE_VA && Add64(base, pageCount * 4096) <= USER_LIMIT
  }

  /** The index of the last page of a segment, with the casts of the second pass. */
  function LastPage(p: Phdr, base: u64): u32 {
    var offset := (p.vaddr - base) % 0x1_0000_0000_0000_0000;
    Add64(Add64(offset, p.memsz), TWO_64 - 1) / 4096 % 0x1_0000_0000
  }

  function FirstPage(p: Phdr, base: u64): u32 {
    (p.vaddr - base) % 0x1_0000_0000_0000_0000 / 4096 % 0x1_0000_0000
  }

  predicate Covers(p: Phdr, va: u64) {
    Loads(p) && p.vaddr <= va < Add64(p.vaddr, p.memsz)
  }

  // ---- The meaning of the checks ----

  /** A segment that passes the first pass and does not end in the last page lies, rounded, inside the user range. */
  lemma ValidSegment(p: Phdr, fileSize: u32)
    requires Loads(p) && PhdrValid(p, fileSize)
    ensures p.offset + p.filesz <= fileSize && p.filesz <= p.memsz && p.vaddr + p.memsz < TWO_64
    ensures Add64(p.vaddr, p.memsz) == p.vaddr + p.memsz
    ensures EndWraps(p) <==> PageUp(Add64(p.vaddr, p.memsz)) == 0
    ensures !EndWraps(p) ==>
      USER_CODE_VA <= PageDown(p.vaddr) <= p.vaddr < p.vaddr + p.memsz <= PageUp(Add64(p.vaddr, p.memsz)) <= USER_LIMIT
  {
  }

  /** What a successful first pass has established for the extent and for every loadable header. */
  lemma {:induction false} PassOneExtent(ps: seq<Phdr>, fileSize: u32)
    requires PassOne(ps, fileSize).Some?
    ensures var x := PassOne(ps, fileSize).value;
      && x.end <= USER_LIMIT && x.end % 4096 == 0 && (x.found ==> x.base >= USER_CODE_VA && x.base % 4096 == 0)
    ensures forall i :: 0 <= i < |ps| && Loads(ps[i]) ==>
      var x := PassOne(ps, fileSize).value;
      && x.found && PhdrValid(ps[i], fileSize)
      && x.base <= PageDown(ps[i].vaddr) && PageUp(Add64(ps[i].vaddr, ps[i].memsz)) <= x.end
  {
    if ps != [] {
      var p, init := ps[|ps| - 1], ps[..|ps| - 1];
      PassOneExtent(init, fileSize);
      PageMultiple(p.vaddr);
      PageMultiple(Add64(Add64(p.vaddr, p.memsz), 4095));
      hide PageDown, Add64;
      assert forall i :: 0 <= i < |init| ==> ps[i] == init[i];
    }
  }

  lemma PageMultiple(v: u64)
    ensures PageDown(v) % 4096 == 0
  {
  }

  /** The extent that passes the checks between the passes: page-aligned, inside the user range, with an exact page
      count. */
  predicate ExtentUsable(x: Extent, entry: u64) {
    && x.found && x.end > x.base && ProgramRangeValid(x.base, PageCount(x.end - x.base))
    && x.base <= entry < x.end
  }

  lemma ExtentPages(x: Extent)
    requires x.base < x.end <= USER_LIMIT && x.base % 4096 == 0 && x.end % 4096 == 0 && USER_CODE_VA <= x.base
    ensures PageCount(x.end - x.base) * 4096 == x.end - x.base && 0 < PageCount(x.end - x.base) <= MAX_PROGRAM_PAGES
    ensures ProgramRangeValid(x.base, PageCount(x.end - x.base))
  {
  }

  /** A page-aligned extent inside the user range. */
  predicate ExtentOk(x: Extent) {
    USER_CODE_VA <= x.base < x.end <= USER_LIMIT && x.base % 4096 == 0 && x.end % 4096 == 0
  }

  /** A segment whose rounded end wrapped to 0 fails the page check of the second pass. */
  lemma WrapRefused(p: Phdr, x: Extent)
    requires ExtentOk(x) && x.base <= p.vaddr && p.vaddr + p.memsz < TWO_64 && p.memsz != 0 && EndWraps(p)
    ensures LastPage(p, x.base) >= PageCount(x.end - x.base)
  {
    ExtentPages(x);
    PagesOf(p, x.base);
    WrappedPage(p.vaddr + p.memsz, x.base);
    SmallBase(x.base);
    hide LastPage, PageCount, ProgramRangeValid;
    assert p.vaddr - x.base + p.memsz - 1 == p.vaddr + p.memsz - x.base - 1;
  }

  lemma InsideAccepted(p: Phdr, x: Extent)
    requires ExtentOk(x) && x.base <= p.vaddr && p.vaddr + p.memsz <= x.end && p.memsz != 0
    ensures LastPage(p, x.base) < PageCount(x.end - x.base)
    ensures LastPage(p, x.base) == (p.vaddr - x.base + p.memsz - 1) / 4096
    ensures FirstPage(p, x.base) == (p.vaddr - x.base) / 4096
  {
    hide LastPage, FirstPage, PageCount, ProgramRangeValid;
    var first, size := p.vaddr - x.base, x.end - x.base;
    ExtentPages(x);
    PagesOf(p, x.base);
    PageInside(first + p.memsz - 1, size, PageCount(size));
    PageInside(first, size, PageCount(size));
  }

  /** The check of the second pass, cast and all, refuses exactly the segments whose rounded end wrapped: no others can
      stick out of the image, and for those the truncated page number is always too large. */
  lemma LastPageCheck(p: Phdr, fileSize: u32, x: Extent)
    requires Loads(p) && PhdrValid(p, fileSize) && ExtentOk(x)
    requires x.base <= PageDown(p.vaddr) && PageUp(Add64(p.vaddr, p.memsz)) <= x.end
    ensures LastPage(p, x.base) >= PageCount(x.end - x.base) <==> EndWraps(p)
    ensures !EndWraps(p) ==>
      && LastPage(p, x.base) == (p.vaddr - x.base + p.memsz - 1) / 4096
      && FirstPage(p, x.base) == (p.vaddr - x.base) / 4096
      && x.base <= p.vaddr && p.vaddr + p.memsz <= x.end
  {
    ValidSegment(p, fileSize);
    PageBelow(p.vaddr);
    hide PageDown, PageUp, Add64, PhdrValid, LastPage, FirstPage, PageCount, ExtentOk;
    if EndWraps(p) {
      WrapRefused(p, x);
    } else {
      InsideAccepted(p, x);
    }
  }

  lemma SmallBase(base: nat)
    requires base < USER_LIMIT
    ensures base / 4096 < 511
  {
  }

  /** A byte inside an image of whole pages lies in one of its pages, whose number survives the cast. */
  lemma PageInside(i: nat, size: nat, count: nat)
    requires i < size == count * 4096 && count <= MAX_PROGRAM_PAGES
    ensures i / 4096 % 0x1_0000_0000 == i / 4096 < count
  {
  }

  lemma PageBelow(v: u64)
    ensures PageDown(v) <= v
  {
  }

  /** The two page numbers without the 64-bit wraps, which cannot happen. */
  lemma PagesOf(p: Phdr, base: u64)
    requires base <= p.vaddr && p.vaddr + p.memsz < TWO_64 && p.memsz != 0
    ensures LastPage(p, base) == (p.vaddr - base + p.memsz - 1) / 4096 % 0x1_0000_0000
    ensures FirstPage(p, base) == (p.vaddr - base) / 4096 % 0x1_0000_0000
  {
    assert Add64(p.vaddr - base, p.memsz) == p.vaddr - base + p.memsz;
    assert Add64(p.vaddr - base + p.memsz, TWO_64 - 1) == p.vaddr - base + p.memsz - 1;
  }

  lemma WrappedPage(end: nat, base: nat)
    requires TWO_64 - 4095 <= end < TWO_64 && base % 4096 == 0 && base < USER_LIMIT
    ensures (end - base - 1) / 4096 % 0x1_0000_0000 == 0xFFFF_FFFF - base / 4096
  {
    assert (end - base - 1) / 4096 == 0xF_FFFF_FFFF_FFFF - base / 4096;
  }

  // ---- The image ----

  /** The contents of one segment in memory: its bytes from the file, then zeros. */
  function SegmentImage(file: seq<byte>, p: Phdr): (s: seq<byte>)
    requires p.offset + p.filesz <= |file| && p.filesz <= p.memsz
    ensures |s| == p.memsz
  {
    file[p.offset..p.offset + p.filesz] + Zeros(p.memsz - p.filesz)
  }

  /** The byte that the last loadable header covering this address puts there, and 0 if none covers it. */
  function ByteFor(file: seq<byte>, ps: seq<Phdr>, va: u64): byte {
    if ps == [] then 0
    else
      var p := ps[|ps| - 1];
      if Covers(p, va) && p.offset + p.filesz <= |file| then
        (if va < p.vaddr + p.filesz then file[p.offset + va - p.vaddr] else 0)
      else ByteFor(file, ps[..|ps| - 1], va)
  }

  /** Every loadable segment lies inside [base, base + n) and inside the file. */
  predicate Placeable(file: seq<byte>, ps: seq<Phdr>, base: u64, n: nat) {
    forall i :: 0 <= i < |ps| && Loads(ps[i]) ==>
      && ps[i].filesz <= ps[i].memsz && ps[i].offset + ps[i].filesz <= |file|
      && base <= ps[i].vaddr && ps[i].vaddr + ps[i].memsz <= base + n < TWO_64
  }

  /** The image after the loadable segments of ps have been placed one after the other. */
  function ImageOf(file: seq<byte>, ps: seq<Phdr>, base: u64, n: nat): (image: seq<byte>)
    requires Placeable(file, ps, base, n)
    ensures |image| == n
  {
    if ps == [] then Zeros(n)
    else
      var p, init := ps[|ps| - 1], ps[..|ps| - 1];
      var image := ImageOf(file, init, base, n);
      if Loads(p) then Splice(image, p.vaddr - base, SegmentImage(file, p)) else image
  }

  lemma SegmentByte(file: seq<byte>, p: Phdr, k: nat)
    requires p.offset + p.filesz <= |file| && p.filesz <= p.memsz && k < p.memsz
    ensures SegmentImage(file, p)[k] == if k < p.filesz then file[p.offset + k] else 0
  {
  }

  /** The byte that placing one more segment leaves at position i. */
  lemma PlacedByte(file: seq<byte>, p: Phdr, image: seq<byte>, base: u64, i: nat)
    requires Loads(p) && p.filesz <= p.memsz && p.offset + p.filesz <= |file|
    requires base <= p.vaddr && p.vaddr + p.memsz <= base + |image| < TWO_64 && i < |image|
    ensures Splice(image, p.vaddr - base, SegmentImage(file, p))[i]
         == if Covers(p, base + i) then
              (if base + i < p.vaddr + p.filesz then file[p.offset + (base + i) - p.vaddr] else 0)
            else image[i]
  {
    CoversIff(p, base + i);
    hide Splice, Covers, SegmentImage;
    SpliceByte(image, p.vaddr - base, SegmentImage(file, p), i);
    if p.vaddr <= base + i < p.vaddr + p.memsz {
      SegmentByte(file, p, base + i - p.vaddr);
    }
  }

  /** Writing the segments one after the other leaves at each byte what the last one covering it put there. */
  lemma {:induction false} ImageBytes(file: seq<byte>, ps: seq<Phdr>, base: u64, n: nat, i: nat)
    requires Placeable(file, ps, base, n) && i < n && base + n < TWO_64
    ensures ImageOf(file, ps, base, n)[i] == ByteFor(file, ps, base + i)
  {
    if ps != [] {
      hide Splice, Covers, SegmentImage;
      var p, init := ps[|ps| - 1], ps[..|ps| - 1];
      ImageBytes(file, init, base, n, i);
      if Loads(p) {
        PlacedByte(file, p, ImageOf(file, init, base, n), base, i);
      } else {
        NotLoaded(p, base + i);
      }
    }
  }

  lemma NotLoaded(p: Phdr, va: u64)
    requires !Loads(p)
    ensures !Covers(p, va)
  {
  }

  lemma CoversIff(p: Phdr, va: u64)
    requires Loads(p) && p.vaddr + p.memsz < TWO_64
    ensures Covers(p, va) <==> p.vaddr <= va < p.vaddr + p.memsz
  {
  }

  /** A page is writable when a loadable segment with the write flag touches it. */
  predicate Touches(p: Phdr, base: u64, page: nat)
    requires base <= p.vaddr
  {
    Loads(p) && (p.vaddr - base) / 4096 <= page <= (p.vaddr - base + p.memsz - 1) / 4096
  }

  /** PF_W, the one flag that the loader reads. */
  predicate WriteFlag(p: Phdr) {
    p.flags / 2 % 2 == 1
  }

  /** PF_X. */
  predicate ExecFlag(p: Phdr) {
    p.flags % 2 == 1
  }
}
