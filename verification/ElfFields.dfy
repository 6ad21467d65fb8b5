/** Which files the loader accepts, in terms of their bytes, and what it makes of them. */
module ElfFields {
  import opened Bytes
  import opened ElfFormat
  import opened UserLoader

  // ---- The fields ----

  function PhNum(file: seq<byte>): nat
    requires 64 <= |file|
  {
    U16At(file, 56)
  }

  /** Where program header i starts. */
  function PhAt(file: seq<byte>, i: nat): nat
    requires 64 <= |file|
  {
    U64At(file, 32) + i * 56
  }

  predicate TableInside(file: seq<byte>) {
    64 <= |file| && U64At(file, 32) + U16At(file, 56) * 56 <= |file|
  }

  /** Header i has type PT_LOAD and a size in memory. */
  predicate Loadable(file: seq<byte>, i: nat)
    requires 64 <= |file| && PhAt(file, i) + 56 <= |file|
  {
    U32At(file, PhAt(file, i)) == 1 && U64At(file, PhAt(file, i) + 40) != 0
  }

  function FileOffset(file: seq<byte>, i: nat): u64
    requires 64 <= |file| && PhAt(file, i) + 56 <= |file|
  {
    U64At(file, PhAt(file, i) + 8)
  }

  function Vaddr(file: seq<byte>, i: nat): u64
    requires 64 <= |file| && PhAt(file, i) + 56 <= |file|
  {
    U64At(file, PhAt(file, i) + 16)
  }

  function FileSize(file: seq<byte>, i: nat): u64
    requires 64 <= |file| && PhAt(file, i) + 56 <= |file|
  {
    U64At(file, PhAt(file, i) + 32)
  }

  function MemSize(file: seq<byte>, i: nat): u64
    requires 64 <= |file| && PhAt(file, i) + 56 <= |file|
  {
    U64At(file, PhAt(file, i) + 40)
  }

  lemma TableBound(file: seq<byte>, i: nat)
    requires TableInside(file) && i < PhNum(file)
    ensures PhAt(file, i) + 56 <= |file|
  {
  }

  /** The segment of header i lies inside the file and, rounded to pages, inside [0x10000, 0x1ff000). */
  predicate SegmentFits(file: seq<byte>, i: nat)
    requires 64 <= |file| && PhAt(file, i) + 56 <= |file|
  {
    && FileSize(file, i) <= MemSize(file, i) && FileOffset(file, i) + FileSize(file, i) <= |file|
    && Vaddr(file, i) / 4096 * 4096 >= 0x10000
    && (Vaddr(file, i) + MemSize(file, i) + 4095) / 4096 * 4096 <= 0x1ff000
  }

  predicate CoversAddress(file: seq<byte>, i: nat, va: nat)
    requires 64 <= |file| && PhAt(file, i) + 56 <= |file|
  {
    Loadable(file, i) && Vaddr(file, i) <= va < Vaddr(file, i) + MemSize(file, i)
  }

  /** The identification, type, machine, version and sizes of a little-endian 64-bit AArch64 executable. */
  predicate Identified(file: seq<byte>)
    requires 64 <= |file|
  {
    && file[0] == 0x7f && file[1] == 69 && file[2] == 76 && file[3] == 70
    && file[4] == 2 && file[5] == 1 && file[6] == 1
    && U16At(file, 16) == 2 && U16At(file, 18) == 183 && U32At(file, 20) == 1
    && U16At(file, 52) == 64 && U16At(file, 54) == 56
  }

  /** A program that can be loaded. */
  predicate Acceptable(file: seq<byte>) {
    && TableInside(file) && Identified(file)
    && (forall i :: 0 <= i < PhNum(file) ==> SegmentOk(file, i))
    && (exists i :: 0 <= i < PhNum(file) && EntryIn(file, i))
  }

  predicate SegmentOk(file: seq<byte>, i: nat)
    requires TableInside(file) && i < PhNum(file)
  {
    TableBound(file, i);
    Loadable(file, i) ==> SegmentFits(file, i)
  }

  predicate EntryIn(file: seq<byte>, i: nat)
    requires TableInside(file) && i < PhNum(file)
  {
    TableBound(file, i);
    CoversAddress(file, i, U64At(file, 24))
  }

  // ---- The decoded headers ----

  lemma EhdrFields(file: seq<byte>)
    requires 64 <= |file|
    ensures DecodeEhdr(file[..64])
         == Ehdr(file[..16], U16At(file, 16), U16At(file, 18), U32At(file, 20), U64At(file, 24), U64At(file, 32),
                 U16At(file, 52), U16At(file, 54), U16At(file, 56))
  {
    assert file[..64][..16] == file[..16];
  }

  lemma PhdrFields(file: seq<byte>, o: nat)
    requires o + 56 <= |file|
    ensures PhdrAt(file, o)
         == Phdr(U32At(file, o), U32At(file, o + 4), U64At(file, o + 8), U64At(file, o + 16), U64At(file, o + 32),
                 U64At(file, o + 40))
  {
  }

  lemma IdentifiedIff(file: seq<byte>)
    requires 64 <= |file| < TWO_32
    ensures EhdrValid(DecodeEhdr(file[..64]), |file|) <==> TableInside(file) && Identified(file) && PhNum(file) != 0
  {
    hide U16At, U32At, U64At, DecodeEhdr;
    EhdrFields(file);
    NoWrap(U64At(file, 32), U16At(file, 56), |file|);
  }

  lemma NoWrap(phoff: u64, n: u16, size: u32)
    ensures !(Add64(phoff, n * 56) < phoff || Add64(phoff, n * 56) > size) <==> phoff + n * 56 <= size
  {
  }

  lemma {:induction false} HeaderIs(file: seq<byte>, n: nat, i: nat)
    requires TableInside(file) && PhdrsInFile(file, DecodeEhdr(file[..64])) && i < n <= DecodeEhdr(file[..64]).phnum
    ensures DecodeEhdr(file[..64]).phnum == PhNum(file) && PhAt(file, i) + 56 <= |file|
    ensures Phdrs(file, DecodeEhdr(file[..64]), n)[i] == PhdrAt(file, PhAt(file, i))
  {
    hide U16At, U32At, DecodeEhdr, DecodePhdr;
    EhdrFields(file);
    if i < n - 1 {
      HeaderIs(file, n - 1, i);
    }
  }

  /** The headers of a file with its table inside, one by one. */
  lemma HeadersAre(file: seq<byte>)
    requires TableInside(file)
    ensures PhdrsInFile(file, DecodeEhdr(file[..64]))
    ensures HeadersOf(file) == Phdrs(file, DecodeEhdr(file[..64]), DecodeEhdr(file[..64]).phnum)
    ensures |HeadersOf(file)| == PhNum(file)
    ensures forall i :: 0 <= i < PhNum(file) ==>
      PhAt(file, i) + 56 <= |file| && HeadersOf(file)[i] == PhdrAt(file, PhAt(file, i))
  {
    hide U16At, U32At, DecodeEhdr, DecodePhdr, Phdrs;
    EhdrFields(file);
    forall i | 0 <= i < PhNum(file)
      ensures PhAt(file, i) + 56 <= |file| && HeadersOf(file)[i] == PhdrAt(file, PhAt(file, i))
    {
      HeaderIs(file, PhNum(file), i);
    }
  }

  // ---- The checks ----

  lemma PageDownIs(v: u64)
    ensures PageDown(v) == v / 4096 * 4096
  {
  }

  lemma PageUpIs(v: u64)
    requires v + 4095 < TWO_64
    ensures PageUp(v) == (v + 4095) / 4096 * 4096
  {
    PageDownIs(v + 4095);
  }

  /** The checks of both passes on one loadable header say that the segment fits. */
  lemma ValidIff(p: Phdr, size: u32)
    ensures PhdrValid(p, size) && !EndWraps(p)
       <==> && p.filesz <= p.memsz && p.offset + p.filesz <= size
            && p.vaddr / 4096 * 4096 >= 0x10000 && (p.vaddr + p.memsz + 4095) / 4096 * 4096 <= 0x1ff000
  {
    PageDownIs(p.vaddr);
    if !EndWraps(p) {
      assert Add64(p.vaddr, p.memsz) == p.vaddr + p.memsz;
      PageUpIs(p.vaddr + p.memsz);
    }
    SumWraps(p.offset, p.filesz, size);
    hide PageUp, PageDown, Add64;
    assert EndWraps(p) ==> (p.vaddr + p.memsz + 4095) / 4096 * 4096 > 0x1ff000;
  }

  lemma SumWraps(a: u64, b: u64, size: u32)
    ensures !(Add64(a, b) < a || Add64(a, b) > size) <==> a + b <= size
  {
  }

  /** The first pass accepts exactly when it accepts every loadable header. */
  lemma {:induction false} PassOneSomeIff(ps: seq<Phdr>, size: u32)
    ensures PassOne(ps, size).Some? <==> forall i :: 0 <= i < |ps| && Loads(ps[i]) ==> PhdrValid(ps[i], size)
  {
    if ps != [] {
      var init := ps[..|ps| - 1];
      PassOneSomeIff(init, size);
      hide PhdrValid, Loads;
      assert forall i :: 0 <= i < |init| ==> ps[i] == init[i];
      if PassOne(init, size).None? {
        var i :| 0 <= i < |init| && Loads(init[i]) && !PhdrValid(init[i], size);
        assert Loads(ps[i]) && !PhdrValid(ps[i], size);
      }
    }
  }

  /** A header that fits, as the passes see it. */
  predicate Fitting(p: Phdr, size: u32) {
    Loads(p) ==> PhdrValid(p, size) && !EndWraps(p)
  }

  lemma PassesForward(ps: seq<Phdr>, size: u32, x: Extent, entry: u64)
    requires PassOne(ps, size) == Some(x) && ExtentUsable(x, entry)
    requires PagesInside(ps, x.base, PageCount(x.end - x.base))
    ensures forall i :: 0 <= i < |ps| ==> Fitting(ps[i], size)
  {
    hide PassOne, PhdrValid, PageCount, PageDown, PageUp, Add64, LastPage, ProgramRangeValid, EndWraps;
    PassOneExtent(ps, size);
    forall i | 0 <= i < |ps|
      ensures Fitting(ps[i], size)
    {
      if Loads(ps[i]) {
        LastPageCheck(ps[i], size, x);
      }
    }
  }

  lemma PassesBackward(ps: seq<Phdr>, size: u32, entry: u64, k: nat)
    requires (forall i :: 0 <= i < |ps| ==> Fitting(ps[i], size)) && k < |ps| && Covers(ps[k], entry)
    ensures PassOne(ps, size).Some?
    ensures var x := PassOne(ps, size).value;
      ExtentUsable(x, entry) && PagesInside(ps, x.base, PageCount(x.end - x.base))
  {
    hide PassOne, PhdrValid, PageCount, PageDown, PageUp, Add64, LastPage, ProgramRangeValid, EndWraps;
    PassOneSomeIff(ps, size);
    var x := PassOne(ps, size).value;
    PassOneExtent(ps, size);
    assert Fitting(ps[k], size);
    ValidSegment(ps[k], size);
    ExtentPages(x);
    forall i | 0 <= i < |ps| && Loads(ps[i])
      ensures LastPage(ps[i], x.base) < PageCount(x.end - x.base)
    {
      assert Fitting(ps[i], size);
      LastPageCheck(ps[i], size, x);
    }
  }

  // ---- Acceptance ----

  lemma FittingIs(file: seq<byte>, i: nat)
    requires TableInside(file) && i < PhNum(file) && |file| < TWO_32
    ensures PhAt(file, i) + 56 <= |file|
    ensures Fitting(PhdrAt(file, PhAt(file, i)), |file|) <==> SegmentOk(file, i)
  {
    hide U32At, U64At, PhdrAt, PhdrValid, EndWraps, PhAt;
    TableBound(file, i);
    PhdrFields(file, PhAt(file, i));
    ValidIff(PhdrAt(file, PhAt(file, i)), |file|);
  }

  lemma CoversIs(file: seq<byte>, i: nat)
    requires TableInside(file) && i < PhNum(file) && |file| < TWO_32 && SegmentOk(file, i)
    ensures PhAt(file, i) + 56 <= |file|
    ensures Covers(PhdrAt(file, PhAt(file, i)), U64At(file, 24)) <==> EntryIn(file, i)
  {
    hide U32At, U64At, PhdrAt, PhAt;
    TableBound(file, i);
    var p := PhdrAt(file, PhAt(file, i));
    PhdrFields(file, PhAt(file, i));
    if Loads(p) {
      CoversIff(p, U64At(file, 24));
    }
  }

  /** The loader accepts exactly the acceptable files: identified as executables for this machine, with a program
      header table inside the file, every loadable segment inside the file and, rounded to pages, inside the user
      range, and the entry point inside a loadable segment. */
  lemma AcceptedIff(file: seq<byte>)
    requires |file| < TWO_32
    ensures LoadSpec(file).Some? <==> Acceptable(file)
  {
    if 64 <= |file| {
      IdentifiedIff(file);
      if TableInside(file) && Identified(file) {
        TableAccepted(file);
      }
    }
    hide Acceptable, TableInside, Identified, EhdrValid, Checked;
  }

  /** The loader's checks on the program headers. */
  predicate Passes(ps: seq<Phdr>, size: u32, entry: u64) {
    && PassOne(ps, size).Some?
    && var x := PassOne(ps, size).value;
       ExtentUsable(x, entry) && PagesInside(ps, x.base, PageCount(x.end - x.base)) && EntryCovered(ps, entry)
  }

  lemma CheckedIs(file: seq<byte>)
    requires |file| < TWO_32
    ensures LoadSpec(file).Some? <==> Checked(file).Some?
  {
    hide PassOne, Phdrs, PageCount, PagesInside, Checked, ImageOf, PageWritable, PhdrsInFile;
  }

  lemma CheckedPasses(file: seq<byte>, h: Ehdr)
    requires |file| < TWO_32 && 64 <= |file| && h == DecodeEhdr(file[..64]) && EhdrValid(h, |file|)
    ensures PhdrsInFile(file, h)
    ensures Checked(file).Some? <==> Passes(Phdrs(file, h, h.phnum), |file|, h.entry)
  {
    hide PassOne, Phdrs, EhdrValid, DecodeEhdr, PageCount, PagesInside, EntryCovered, PhdrsInFile, ProgramRangeValid;
    EhdrPhdrs(file, h);
  }

  lemma LoadSpecIs(file: seq<byte>)
    requires |file| < TWO_32 && 64 <= |file| && EhdrValid(DecodeEhdr(file[..64]), |file|)
    ensures TableInside(file)
    ensures LoadSpec(file).Some? <==> Passes(HeadersOf(file), |file|, U64At(file, 24))
  {
    hide U16At, U32At, U64At, EhdrValid, DecodeEhdr, TableInside, LoadSpec, Passes, HeadersOf, Checked, Phdrs;
    CheckedIs(file);
    CheckedPasses(file, DecodeEhdr(file[..64]));
    IdentifiedIff(file);
    EhdrFields(file);
    HeadersAre(file);
  }

  lemma TableAccepted(file: seq<byte>)
    requires |file| < TWO_32 && 64 <= |file| && TableInside(file) && Identified(file)
    ensures LoadSpec(file).Some? <==> Acceptable(file)
  {
    hide EhdrValid, DecodeEhdr, SegmentOk, EntryIn, Identified, TableInside, LoadSpec, HeadersOf, PhNum, PhAt, Passes,
         Acceptable;
    IdentifiedIff(file);
    if PhNum(file) == 0 {
      NoHeaders(file);
    } else {
      LoadSpecIs(file);
      HeadersAccepted(file);
    }
  }

  lemma NoHeaders(file: seq<byte>)
    requires |file| < TWO_32 && 64 <= |file| && TableInside(file) && PhNum(file) == 0
    requires !EhdrValid(DecodeEhdr(file[..64]), |file|)
    ensures LoadSpec(file).None? && !Acceptable(file)
  {
    CheckedIs(file);
    hide EhdrValid, DecodeEhdr, LoadSpec;
  }

  lemma HeadersAccepted(file: seq<byte>)
    requires |file| < TWO_32 && 64 <= |file| && TableInside(file) && Identified(file)
    ensures Passes(HeadersOf(file), |file|, U64At(file, 24)) <==> Acceptable(file)
  {
    hide PhdrAt, PassOne, Covers, PagesInside, PageCount, Fitting, SegmentOk, EntryIn, Identified, TableInside,
         HeadersOf, PhNum, PhAt, ProgramRangeValid, U64At;
    HeadersAre(file);
    var ps, entry := HeadersOf(file), U64At(file, 24);
    forall i | 0 <= i < |ps|
      ensures Fitting(ps[i], |file|) <==> SegmentOk(file, i)
      ensures SegmentOk(file, i) ==> (Covers(ps[i], entry) <==> EntryIn(file, i))
    {
      FittingIs(file, i);
      if SegmentOk(file, i) {
        CoversIs(file, i);
      }
    }
    if Acceptable(file) {
      var k :| 0 <= k < PhNum(file) && EntryIn(file, k);
      assert SegmentOk(file, k);
      PassesBackward(ps, |file|, entry, k);
    }
    if Passes(ps, |file|, entry) {
      PassesForward(ps, |file|, PassOne(ps, |file|).value, entry);
      var k :| 0 <= k < |ps| && Covers(ps[k], entry);
      assert Fitting(ps[k], |file|);
    }
  }

  // ---- What an accepted file becomes ----

  /** The byte that the file asks for at this address: that of the last loadable segment covering it, from the
      file or, past the segment's file size, zero; and zero where no segment covers it. */
  ghost predicate ByteIs(file: seq<byte>, va: u64, b: byte)
    requires TableInside(file)
  {
    || (b == 0 && forall i :: 0 <= i < PhNum(file) ==> !CoversAt(file, i, va))
    || exists i :: 0 <= i < PhNum(file) && CoversAt(file, i, va) && LastAt(file, i, va) && SegmentByteAt(file, i, va, b)
  }

  predicate CoversAt(file: seq<byte>, i: nat, va: u64)
    requires TableInside(file) && i < PhNum(file)
  {
    TableBound(file, i);
    CoversAddress(file, i, va)
  }

  predicate LastAt(file: seq<byte>, i: nat, va: u64)
    requires TableInside(file) && i < PhNum(file)
  {
    forall k :: i < k < PhNum(file) ==> !CoversAt(file, k, va)
  }

  predicate SegmentByteAt(file: seq<byte>, i: nat, va: u64, b: byte)
    requires TableInside(file) && i < PhNum(file)
  {
    TableBound(file, i);
    var start := Vaddr(file, i);
    if start <= va < start + FileSize(file, i) then
      FileOffset(file, i) + va - start < |file| && b == file[FileOffset(file, i) + va - start]
    else b == 0
  }

  lemma CoversAtIs(file: seq<byte>, i: nat, va: u64)
    requires TableInside(file) && i < PhNum(file) && |file| < TWO_32 && SegmentOk(file, i)
    ensures PhAt(file, i) + 56 <= |file|
    ensures Covers(PhdrAt(file, PhAt(file, i)), va) <==> CoversAt(file, i, va)
  {
    hide U32At, U64At, PhdrAt, PhAt;
    TableBound(file, i);
    var p := PhdrAt(file, PhAt(file, i));
    PhdrFields(file, PhAt(file, i));
    if Loads(p) {
      CoversIff(p, va);
    }
  }

  lemma {:induction false} NoneCovers(file: seq<byte>, ps: seq<Phdr>, va: u64)
    requires forall i :: 0 <= i < |ps| ==> !Covers(ps[i], va)
    ensures ByteFor(file, ps, va) == 0
  {
    if ps != [] {
      NoneCovers(file, ps[..|ps| - 1], va);
    }
  }

  /** The recursion over the headers finds the last one that covers the address. */
  lemma {:induction false} LastCovers(file: seq<byte>, ps: seq<Phdr>, va: u64, i: nat)
    requires i < |ps| && Covers(ps[i], va) && forall k :: i < k < |ps| ==> !Covers(ps[k], va)
    requires ps[i].offset + ps[i].filesz <= |file|
    ensures ps[i].vaddr <= va
    ensures ByteFor(file, ps, va) ==
      if va < ps[i].vaddr + ps[i].filesz then file[ps[i].offset + va - ps[i].vaddr] else 0
  {
    if i < |ps| - 1 {
      LastCovers(file, ps[..|ps| - 1], va, i);
    }
  }

  /** The last element of a finite range with a property, if any. */
  lemma LastOf(ps: seq<Phdr>, va: u64) returns (i: int)
    ensures -1 <= i < |ps| && (i >= 0 ==> Covers(ps[i], va))
    ensures forall k :: i < k < |ps| ==> !Covers(ps[k], va)
  {
    i := |ps| - 1;
    while i >= 0 && !Covers(ps[i], va)
      invariant -1 <= i < |ps|
      invariant forall k :: i < k < |ps| ==> !Covers(ps[k], va)
    {
      i := i - 1;
    }
  }

  /** What the loader puts at an address is what the file asks for there. */
  lemma ByteForIs(file: seq<byte>, va: u64)
    requires |file| < TWO_32 && Acceptable(file)
    ensures ByteIs(file, va, ByteFor(file, HeadersOf(file), va))
  {
    hide HeadersOf, PhdrAt, Covers, CoversAt, SegmentOk, Identified, PhNum, PhAt, ByteFor, EntryIn;
    HeadersAre(file);
    var ps := HeadersOf(file);
    forall i | 0 <= i < |ps|
      ensures Covers(ps[i], va) <==> CoversAt(file, i, va)
    {
      assert SegmentOk(file, i);
      CoversAtIs(file, i, va);
    }
    var i := LastOf(ps, va);
    if i < 0 {
      NoneCovers(file, ps, va);
    } else {
      assert LastAt(file, i, va);
      CoveredByte(file, va, i);
    }
  }

  lemma CoveredByte(file: seq<byte>, va: u64, i: nat)
    requires 64 <= |file| < TWO_32 && TableInside(file) && i < PhNum(file)
    requires SegmentOk(file, i) && CoversAt(file, i, va) && |HeadersOf(file)| == PhNum(file)
    requires PhAt(file, i) + 56 <= |file| && HeadersOf(file)[i] == PhdrAt(file, PhAt(file, i))
    requires Covers(HeadersOf(file)[i], va) && forall k :: i < k < PhNum(file) ==> !Covers(HeadersOf(file)[k], va)
    ensures SegmentByteAt(file, i, va, ByteFor(file, HeadersOf(file), va))
  {
    hide HeadersOf, PhdrAt, PhNum, PhAt, ByteFor, Covers, U32At, U64At, TableInside;
    PhdrFields(file, PhAt(file, i));
    LastCovers(file, HeadersOf(file), va, i);
  }

  /** Header i asks for a writable segment with a byte in [start, start + 4096). */
  predicate WritesPage(file: seq<byte>, i: nat, start: nat)
    requires TableInside(file) && i < PhNum(file)
  {
    TableBound(file, i);
    && Loadable(file, i) && U32At(file, PhAt(file, i) + 4) / 2 % 2 == 1
    && Vaddr(file, i) < start + 4096 && start < Vaddr(file, i) + MemSize(file, i)
  }

  /** Some loadable segment that has the write flag has a byte in the page that starts here. */
  predicate PageWritten(file: seq<byte>, start: nat)
    requires TableInside(file)
  {
    exists i :: 0 <= i < PhNum(file) && WritesPage(file, i, start)
  }

  lemma TouchesIs(vaddr: nat, memsz: nat, base: nat, page: nat)
    requires base <= vaddr && memsz != 0
    ensures (vaddr - base) / 4096 <= page <= (vaddr - base + memsz - 1) / 4096
       <==> vaddr < base + page * 4096 + 4096 && base + page * 4096 < vaddr + memsz
  {
  }

  lemma WritesPageIs(file: seq<byte>, i: nat, base: u64, page: nat)
    requires 64 <= |file| < TWO_32 && TableInside(file) && i < PhNum(file)
    ensures PhAt(file, i) + 56 <= |file|
    ensures var p := PhdrAt(file, PhAt(file, i));
      base <= p.vaddr ==> (WriteFlag(p) && Touches(p, base, page) <==> WritesPage(file, i, base + page * 4096))
  {
    hide U32At, U64At, PhdrAt, PhAt, TableInside;
    TableBound(file, i);
    var p := PhdrAt(file, PhAt(file, i));
    PhdrFields(file, PhAt(file, i));
    if base <= p.vaddr && p.memsz != 0 {
      TouchesIs(p.vaddr, p.memsz, base, page);
    }
  }

  /** A page of the image is writable exactly when a writable segment has a byte in it. */
  lemma PageWritableIs(file: seq<byte>, base: u64, page: nat)
    requires |file| < TWO_32 && Acceptable(file)
    requires forall i :: 0 <= i < |HeadersOf(file)| && Loads(HeadersOf(file)[i]) ==> base <= HeadersOf(file)[i].vaddr
    ensures PageWritable(HeadersOf(file), base, page) <==> PageWritten(file, base + page * 4096)
  {
    hide HeadersOf, PhdrAt, WritesPage, WriteFlag, SegmentOk, Identified, PhNum, PhAt, EntryIn;
    HeadersAre(file);
    var ps, start := HeadersOf(file), base + page * 4096;
    forall i | 0 <= i < PhNum(file)
      ensures WritesPage(file, i, start) <==> WriteFlag(ps[i]) && base <= ps[i].vaddr && Touches(ps[i], base, page)
    {
      WritesPageIs(file, i, base, page);
      if WritesPage(file, i, start) {
        WritesLoads(file, i, start);
      }
    }
  }

  lemma WritesLoads(file: seq<byte>, i: nat, start: nat)
    requires 64 <= |file| < TWO_32 && TableInside(file) && i < PhNum(file) && WritesPage(file, i, start)
    ensures PhAt(file, i) + 56 <= |file| && Loads(PhdrAt(file, PhAt(file, i)))
  {
    hide U32At, U64At, PhdrAt, PhAt;
    TableBound(file, i);
    PhdrFields(file, PhAt(file, i));
  }

  /** The extent starts at the start of a page of a loadable segment and ends at the end of one. */
  lemma {:induction false} ExtentAttained(ps: seq<Phdr>, size: u32)
    requires PassOne(ps, size).Some? && PassOne(ps, size).value.found
    ensures exists i :: 0 <= i < |ps| && Loads(ps[i]) && PassOne(ps, size).value.base == PageDown(ps[i].vaddr)
    ensures exists i :: 0 <= i < |ps| && Loads(ps[i])
                        && PassOne(ps, size).value.end == PageUp(Add64(ps[i].vaddr, ps[i].memsz))
  {
    hide PageDown, PageUp, Add64, PhdrValid, Loads;
    var p, init := ps[|ps| - 1], ps[..|ps| - 1];
    assert forall i :: 0 <= i < |init| ==> init[i] == ps[i];
    var x0, x := PassOne(init, size).value, PassOne(ps, size).value;
    if x0.found {
      ExtentAttained(init, size);
      var i :| 0 <= i < |init| && Loads(init[i]) && x0.base == PageDown(init[i].vaddr);
      var j :| 0 <= j < |init| && Loads(init[j]) && x0.end == PageUp(Add64(init[j].vaddr, init[j].memsz));
      assert Loads(ps[i]) && x0.base == PageDown(ps[i].vaddr);
      assert Loads(ps[j]) && x0.end == PageUp(Add64(ps[j].vaddr, ps[j].memsz));
    }
    if Loads(p) {
      assert ps[|ps| - 1] == p;
    }
  }

  /** The program that an accepted file becomes lies where the first pass found its extent. */
  lemma ProgramExtent(file: seq<byte>)
    requires 64 <= |file| < TWO_32 && LoadSpec(file).Some?
    ensures TableInside(file)
    ensures var p := LoadSpec(file).value;
      && PassOne(HeadersOf(file), |file|).Some?
      && var x := PassOne(HeadersOf(file), |file|).value;
         && x.found && x.base == p.base && x.end == p.base + |p.image| && p.entry == U64At(file, 24)
         && |p.writable| == p.pageCount && |p.image| == p.pageCount * 4096
         && Placeable(file, HeadersOf(file), x.base, x.end - x.base)
  {
    hide PassOne, Phdrs, PageCount, PagesInside, ImageOf, PageWritable, EhdrValid, DecodeEhdr, U16At, U32At, U64At,
         PhdrsInFile, EntryCovered, ProgramRangeValid, TableInside, HeadersOf;
    IdentifiedIff(file);
    EhdrFields(file);
    HeadersAre(file);
    var (h, x) := Checked(file).value;
    CheckedPlaceable(HeadersOf(file), file, x);
  }

  predicate StartsAt(file: seq<byte>, i: nat, a: nat)
    requires TableInside(file) && i < PhNum(file)
  {
    TableBound(file, i);
    Loadable(file, i) && Vaddr(file, i) / 4096 * 4096 == a
  }

  predicate EndsAt(file: seq<byte>, i: nat, a: nat)
    requires TableInside(file) && i < PhNum(file)
  {
    TableBound(file, i);
    Loadable(file, i) && (Vaddr(file, i) + MemSize(file, i) + 4095) / 4096 * 4096 == a
  }

  predicate LiesIn(file: seq<byte>, i: nat, a: nat, b: nat)
    requires TableInside(file) && i < PhNum(file)
  {
    TableBound(file, i);
    Loadable(file, i) ==> a <= Vaddr(file, i) && Vaddr(file, i) + MemSize(file, i) <= b
  }

  /** [a, b) is the least range of whole pages that holds every loadable segment. */
  predicate Spans(file: seq<byte>, a: nat, b: nat)
    requires TableInside(file)
  {
    && (exists i :: 0 <= i < PhNum(file) && StartsAt(file, i, a))
    && (exists i :: 0 <= i < PhNum(file) && EndsAt(file, i, b))
    && (forall i :: 0 <= i < PhNum(file) ==> LiesIn(file, i, a, b))
  }

  /** The rounded ends of one loadable header, and where it lies. */
  lemma HeaderEnds(file: seq<byte>, i: nat, a: nat, b: nat)
    requires 64 <= |file| < TWO_32 && TableInside(file) && i < PhNum(file) && SegmentOk(file, i)
    ensures PhAt(file, i) + 56 <= |file|
    ensures var p := PhdrAt(file, PhAt(file, i));
      && (StartsAt(file, i, a) <==> Loads(p) && PageDown(p.vaddr) == a)
      && (EndsAt(file, i, b) <==> Loads(p) && PageUp(Add64(p.vaddr, p.memsz)) == b)
      && (LiesIn(file, i, a, b) <==> (Loads(p) ==> a <= p.vaddr && p.vaddr + p.memsz <= b))
  {
    hide U32At, U64At, PhdrAt, PhAt, PageDown, PageUp, Add64;
    TableBound(file, i);
    var p := PhdrAt(file, PhAt(file, i));
    PhdrFields(file, PhAt(file, i));
    PageDownIs(p.vaddr);
    if Loads(p) {
      assert p.vaddr + p.memsz + 4095 < TWO_64;
      NoCarry(p.vaddr, p.memsz);
      PageUpIs(p.vaddr + p.memsz);
    }
  }

  lemma NoCarry(a: u64, b: u64)
    requires a + b < TWO_64
    ensures Add64(a, b) == a + b
  {
  }

  /** What an accepted file becomes: the pages from the lowest to the highest one of its loadable segments,
      holding the bytes that the file asks for, writable where a writable segment has a byte, and started at its
      entry. */
  lemma LoadedFields(file: seq<byte>)
    requires |file| < TWO_32 && LoadSpec(file).Some?
    ensures Acceptable(file)
    ensures var p := LoadSpec(file).value;
      && p.entry == U64At(file, 24) && |p.writable| == p.pageCount && |p.image| == p.pageCount * 4096
      && Spans(file, p.base, p.base + |p.image|)
      && p.base + |p.image| < TWO_64
      && (forall k :: 0 <= k < |p.image| ==> ByteIs(file, p.base + k, p.image[k]))
      && (forall page :: 0 <= page < |p.writable| ==> p.writable[page] == PageWritten(file, p.base + page * 4096))
  {
    hide HeadersOf, PhdrAt, WritesPage, SegmentOk, Identified, PhNum, PhAt, EntryIn, LoadSpec, ByteIs, PassOne, ByteFor,
         PageWritable, StartsAt, EndsAt, LiesIn, U64At, PageDown, PageUp, Add64, Loads, PageWritten;
    AcceptedIff(file);
    ProgramExtent(file);
    LoadedImage(file);
    HeadersAre(file);
    var ps, p := HeadersOf(file), LoadSpec(file).value;
    var end := p.base + |p.image|;
    ExtentAttained(ps, |file|);
    forall i | 0 <= i < PhNum(file)
      ensures StartsAt(file, i, p.base) <==> Loads(ps[i]) && PageDown(ps[i].vaddr) == p.base
      ensures EndsAt(file, i, end) <==> Loads(ps[i]) && PageUp(Add64(ps[i].vaddr, ps[i].memsz)) == end
      ensures LiesIn(file, i, p.base, end)
    {
      assert SegmentOk(file, i);
      HeaderEnds(file, i, p.base, end);
    }
    var j :| 0 <= j < |ps| && Loads(ps[j]) && end == PageUp(Add64(ps[j].vaddr, ps[j].memsz));
    assert EndsAt(file, j, end);
    assert Spans(file, p.base, end);
    forall k | 0 <= k < |p.image|
      ensures ByteIs(file, p.base + k, p.image[k])
    {
      ByteForIs(file, p.base + k);
    }
    forall page | 0 <= page < |p.writable|
      ensures p.writable[page] == PageWritten(file, p.base + page * 4096)
    {
      PageWritableIs(file, p.base, page);
    }
  }

  // ---- A program of two segments ----

  /** A small executable: text that may be read and executed at 0x10000, and four bytes of data followed by four zero
      bytes that may be read and written at 0x11000. */
  function TwoByte(i: nat): byte {
    match i
    case 0 => 0x7f
    case 1 => 69
    case 2 => 76
    case 3 => 70
    case 4 => 2
    case 5 => 1
    case 6 => 1
    case 16 => 2
    case 18 => 183
    case 20 => 1
    case 26 => 1
    case 32 => 64
    case 52 => 64
    case 54 => 56
    case 56 => 2
    case 64 => 1
    case 68 => 5
    case 72 => 176
    case 82 => 1
    case 96 => 4
    case 104 => 4
    case 120 => 1
    case 124 => 6
    case 128 => 180
    case 137 => 0x10
    case 138 => 1
    case 152 => 4
    case 160 => 8
    case 179 => 0x14
    case 180 => 100
    case 181 => 97
    case 182 => 116
    case 183 => 97
    case _ => 0
  }

  const TWO_FILE: seq<byte> := seq(184, i requires 0 <= i => TwoByte(i))

  lemma TwoHeader()
    ensures TableInside(TWO_FILE) && Identified(TWO_FILE) && PhNum(TWO_FILE) == 2 && U64At(TWO_FILE, 24) == 0x10000
    ensures PhAt(TWO_FILE, 0) == 64 && PhAt(TWO_FILE, 1) == 120
  {
  }

  lemma TwoText()
    ensures PhAt(TWO_FILE, 0) == 64
    ensures Loadable(TWO_FILE, 0) && FileOffset(TWO_FILE, 0) == 176 && Vaddr(TWO_FILE, 0) == 0x10000
    ensures FileSize(TWO_FILE, 0) == 4 && MemSize(TWO_FILE, 0) == 4 && U32At(TWO_FILE, 68) == 5
  {
    hide TableInside, Identified;
    TwoHeader();
  }

  lemma TwoData()
    ensures PhAt(TWO_FILE, 1) == 120
    ensures Loadable(TWO_FILE, 1) && FileOffset(TWO_FILE, 1) == 180 && Vaddr(TWO_FILE, 1) == 0x11000
    ensures FileSize(TWO_FILE, 1) == 4 && MemSize(TWO_FILE, 1) == 8 && U32At(TWO_FILE, 124) == 6
  {
    hide TableInside, Identified;
    TwoHeader();
  }

  lemma TwoSpan(a: nat, b: nat)
    requires TableInside(TWO_FILE) && Spans(TWO_FILE, a, b)
    ensures a == 0x10000 && b == 0x12000
  {
    hide U16At, U32At, U64At, TableInside;
    TwoHeader();
    TwoText();
    TwoData();
    hide PhAt, Loadable, Vaddr, MemSize, PhNum;
    assert LiesIn(TWO_FILE, 0, a, b) && LiesIn(TWO_FILE, 1, a, b);
  }

  lemma TwoCovers(va: u64)
    requires TableInside(TWO_FILE) && PhNum(TWO_FILE) == 2
    ensures CoversAt(TWO_FILE, 0, va) <==> 0x10000 <= va < 0x10004
    ensures CoversAt(TWO_FILE, 1, va) <==> 0x11000 <= va < 0x11008
  {
    hide U16At, U32At, U64At, TableInside;
    TwoHeader();
    TwoText();
    TwoData();
    hide PhAt, Loadable, Vaddr, MemSize, PhNum;
  }

  lemma TwoByteAt(va: u64, b: byte)
    requires TableInside(TWO_FILE) && ByteIs(TWO_FILE, va, b)
    ensures 0x10000 <= va < 0x10004 ==> b == TwoByte(176 + va - 0x10000)
    ensures 0x11000 <= va < 0x11004 ==> b == TwoByte(180 + va - 0x11000)
    ensures 0x11004 <= va < 0x11008 ==> b == 0
  {
    hide U16At, U32At, U64At, TableInside, TwoByte;
    TwoHeader();
    TwoText();
    TwoData();
    TwoCovers(va);
    hide PhAt, Loadable, Vaddr, MemSize, FileSize, FileOffset, PhNum, CoversAt;
  }

  lemma TwoBytes(image: seq<byte>)
    requires TableInside(TWO_FILE) && |image| == 8192
    requires forall k :: 0 <= k < |image| ==> ByteIs(TWO_FILE, 0x10000 + k, image[k])
    ensures image[0..4] == [0, 0, 0, 0x14] && image[4096..4104] == [100, 97, 116, 97, 0, 0, 0, 0]
  {
    hide ByteIs, TableInside;
    forall k | 0 <= k < 4 || 4096 <= k < 4104
      ensures image[k] == if k < 4 then TwoByte(176 + k) else if k < 4100 then TwoByte(180 + k - 4096) else 0
    {
      TwoByteAt(0x10000 + k, image[k]);
    }
  }

  /** It is accepted: two pages, the first with the text and not writable, the second with the data and writable. */
  lemma TwoLoaded()
    ensures LoadSpec(TWO_FILE).Some?
    ensures var p := LoadSpec(TWO_FILE).value;
      && p.base == 0x10000 && p.entry == 0x10000 && p.writable == [false, true] && |p.image| == 8192
      && p.image[0..4] == [0, 0, 0, 0x14] && p.image[4096..4104] == [100, 97, 116, 97, 0, 0, 0, 0]
  {
    hide U16At, U32At, U64At, LoadSpec, Identified;
    TwoHeader();
    TwoText();
    TwoData();
    hide PhAt, Loadable, FileOffset, Vaddr, FileSize, MemSize;
    assert SegmentOk(TWO_FILE, 0) && SegmentOk(TWO_FILE, 1) && EntryIn(TWO_FILE, 0);
    AcceptedIff(TWO_FILE);
    LoadedFields(TWO_FILE);
    var p := LoadSpec(TWO_FILE).value;
    TwoSpan(p.base, p.base + |p.image|);
    assert WritesPage(TWO_FILE, 1, 0x11000) && !WritesPage(TWO_FILE, 0, 0x10000) && !WritesPage(TWO_FILE, 1, 0x10000);
    assert PageWritten(TWO_FILE, p.base + 1 * 4096) && !PageWritten(TWO_FILE, p.base + 0 * 4096);
    TwoBytes(p.image);
  }
}
