/** Loading an ELF program into freshly allocated pages: two passes over the program headers, a copy in chunks of 256
    bytes that are split at page ends, and zero fill. */
module UserLoader {
  import opened Bytes
  import opened BlockIO
  import opened ElfFormat

  const LOAD_CHUNK_SIZE := 256

  /** Below this offset from the image base a page number fits 32 bits. */
  const OFFSET_MAX := 0x1000_0000_0000

  /** What is handed on to the mapping loop: where the image goes, its pages and where execution starts. */
  datatype Program = Program(base: u64, pageCount: u32, entry: u64, image: seq<byte>, writable: seq<bool>)

  function PhdrAt(file: seq<byte>, offset: nat): Phdr
    requires offset + PHDR_SIZE <= |file|
  {
    DecodePhdr(file[offset..offset + PHDR_SIZE])
  }

  predicate PhdrsInFile(file: seq<byte>, h: Ehdr) {
    h.phoff + h.phnum * 56 <= |file|
  }

  /** The first n program headers. */
  function Phdrs(file: seq<byte>, h: Ehdr, n: nat): (ps: seq<Phdr>)
    requires PhdrsInFile(file, h) && n <= h.phnum
    ensures |ps| == n
  {
    if n == 0 then [] else Phdrs(file, h, n - 1) + [PhdrAt(file, h.phoff + (n - 1) * 56)]
  }

  /** The program headers of a file, none when it is too short for them. */
  function HeadersOf(file: seq<byte>): seq<Phdr> {
    if |file| < EHDR_SIZE then []
    else
      var h := DecodeEhdr(file[..EHDR_SIZE]);
      if PhdrsInFile(file, h) then Phdrs(file, h, h.phnum) else []
  }

  predicate PageWritable(ps: seq<Phdr>, base: u64, page: nat) {
    exists i :: 0 <= i < |ps| && WriteFlag(ps[i]) && base <= ps[i].vaddr && Touches(ps[i], base, page)
  }

  predicate EntryCovered(ps: seq<Phdr>, entry: u64) {
    exists i :: 0 <= i < |ps| && Covers(ps[i], entry)
  }

  /** The second-pass check on every loadable header. */
  predicate PagesInside(ps: seq<Phdr>, base: u64, pageCount: u32) {
    forall i :: 0 <= i < |ps| && Loads(ps[i]) ==> LastPage(ps[i], base) < pageCount
  }

  /** A valid ELF header of a file of fewer than 2^32 bytes has its program headers inside the file. */
  lemma EhdrPhdrs(file: seq<byte>, h: Ehdr)
    requires |h.ident| == 16 && |file| < TWO_32 && EhdrValid(h, |file|)
    ensures PhdrsInFile(file, h)
  {
  }

  /** The checks of user_run_elf_file up to the allocation of pages, with the extent of the image. */
  function ExtentOf(file: seq<byte>): (r: Option<(Ehdr, Extent)>)
    requires |file| < TWO_32
    ensures r.Some? ==> |r.value.0.ident| == 16 && PhdrsInFile(file, r.value.0)
    ensures r.Some? ==>
      var (h, x) := r.value;
      PassOne(Phdrs(file, h, h.phnum), |file|) == Some(x) && x.found && x.base < x.end
  {
    hide PassOne, Phdrs, EhdrValid, DecodeEhdr, ProgramRangeValid, PageCount;
    if |file| < EHDR_SIZE then None
    else
      var h := DecodeEhdr(file[..EHDR_SIZE]);
      if !EhdrValid(h, |file|) then None
      else
        EhdrPhdrs(file, h);
        match PassOne(Phdrs(file, h, h.phnum), |file|)
        case None => None
        case Some(x) => if ExtentUsable(x, h.entry) then Some((h, x)) else None
  }

  /** All checks of user_run_elf_file as one condition on the file. */
  function Checked(file: seq<byte>): (r: Option<(Ehdr, Extent)>)
    requires |file| < TWO_32
    ensures r.Some? ==> |r.value.0.ident| == 16 && PhdrsInFile(file, r.value.0)
  {
    hide PassOne, Phdrs, PageCount, PagesInside, EntryCovered, ExtentOf, PhdrsInFile;
    match ExtentOf(file)
    case None => None
    case Some((h, x)) =>
      var ps := Phdrs(file, h, h.phnum);
      if PagesInside(ps, x.base, PageCount(x.end - x.base)) && EntryCovered(ps, h.entry) then Some((h, x)) else None
  }

  /** Headers that pass both passes can be placed: each segment lies inside the image and inside the file. */
  lemma CheckedPlaceable(ps: seq<Phdr>, file: seq<byte>, x: Extent)
    requires |file| < TWO_32 && PassOne(ps, |file|) == Some(x) && x.found && x.base < x.end
    requires PagesInside(ps, x.base, PageCount(x.end - x.base))
    ensures ExtentOk(x) && Placeable(file, ps, x.base, x.end - x.base)
    ensures PageCount(x.end - x.base) * 4096 == x.end - x.base
    ensures forall i :: 0 <= i < |ps| && Loads(ps[i]) ==> !EndWraps(ps[i])
  {
    hide PassOne, PageUp, PageDown, Add64, PhdrValid, LastPage, PageCount, ProgramRangeValid;
    PassOneExtent(ps, |file|);
    ExtentPages(x);
    forall i | 0 <= i < |ps| && Loads(ps[i])
      ensures !EndWraps(ps[i])
      ensures ps[i].filesz <= ps[i].memsz && ps[i].offset + ps[i].filesz <= |file|
      ensures x.base <= ps[i].vaddr && ps[i].vaddr + ps[i].memsz <= x.end
    {
      ValidSegment(ps[i], |file|);
      LastPageCheck(ps[i], |file|, x);
    }
  }

  /** The whole loader as a function of the file; None when it refuses the program. */
  function LoadSpec(file: seq<byte>): Option<Program>
    requires |file| < TWO_32
  {
    hide PassOne, Phdrs, PageCount, PagesInside, Checked, ImageOf, PageWritable, PhdrsInFile;
    match Checked(file)
    case None => None
    case Some((h, x)) =>
      var ps := Phdrs(file, h, h.phnum);
      CheckedExtent(file);
      CheckedPlaceable(ps, file, x);
      var count := PageCount(x.end - x.base);
      Some(Program(x.base, count, h.entry, ImageOf(file, ps, x.base, x.end - x.base),
                   seq(count, page requires 0 <= page => PageWritable(ps, x.base, page))))
  }

  /** What a loaded program contains: every byte of the image is the file byte or the zero that the last loadable header
      covering its address asks for, and zero where none does; a page is writable exactly when a writable segment
      touches it; and execution starts inside a loadable segment. */
  lemma LoadedImage(file: seq<byte>)
    requires |file| < TWO_32 && LoadSpec(file).Some?
    ensures var p, ps := LoadSpec(file).value, HeadersOf(file);
      && |p.image| == p.pageCount * 4096 && |p.writable| == p.pageCount <= MAX_PROGRAM_PAGES
      && p.base % 4096 == 0 && USER_CODE_VA <= p.base && p.base + |p.image| <= USER_LIMIT
      && (forall i :: 0 <= i < |p.image| ==> p.image[i] == ByteFor(file, ps, p.base + i))
      && (forall page :: 0 <= page < |p.writable| ==> p.writable[page] == PageWritable(ps, p.base, page))
      && p.base <= p.entry < p.base + |p.image| && EntryCovered(ps, p.entry)
  {
    hide PassOne, PageUp, PageDown, Add64, EhdrValid, Phdrs, PageWritable, EntryCovered, ByteFor, ImageOf, PagesInside,
         Checked;
    CheckedExtent(file);
    var (h, x) := Checked(file).value;
    var ps := Phdrs(file, h, h.phnum);
    CheckedPlaceable(ps, file, x);
    ExtentPages(x);
    AllImageBytes(file, ps, x.base, x.end - x.base);
  }

  lemma AllImageBytes(file: seq<byte>, ps: seq<Phdr>, base: u64, n: nat)
    requires Placeable(file, ps, base, n) && base + n < TWO_64
    ensures forall i :: 0 <= i < n ==> ImageOf(file, ps, base, n)[i] == ByteFor(file, ps, base + i)
  {
    hide ImageOf, ByteFor;
    forall i | 0 <= i < n
      ensures ImageOf(file, ps, base, n)[i] == ByteFor(file, ps, base + i)
    {
      ImageBytes(file, ps, base, n, i);
    }
  }

  lemma CheckedExtent(file: seq<byte>)
    requires |file| < TWO_32 && Checked(file).Some?
    ensures |file| >= EHDR_SIZE
    ensures var (h, x) := Checked(file).value;
      && h == DecodeEhdr(file[..EHDR_SIZE]) && EhdrValid(h, |file|)
      && var ps := Phdrs(file, h, h.phnum);
         && PassOne(ps, |file|) == Some(x) && x.found && x.base < x.end && x.base <= h.entry < x.end
         && PagesInside(ps, x.base, PageCount(x.end - x.base)) && EntryCovered(ps, h.entry)
  {
    hide PassOne, Phdrs, EhdrValid, DecodeEhdr, ProgramRangeValid, PageCount, PagesInside, EntryCovered, PhdrsInFile;
  }

  /** A program with a segment whose rounded end wraps to 0 is always refused, by the second pass if not before. */
  lemma WrappedRefused(file: seq<byte>, i: nat)
    requires |file| < TWO_32
    requires i < |HeadersOf(file)| && Loads(HeadersOf(file)[i]) && EndWraps(HeadersOf(file)[i])
    ensures LoadSpec(file).None?
  {
    hide PassOne, EhdrValid, Phdrs, EndWraps, Loads, PageCount, PagesInside, EntryCovered, Checked, DecodeEhdr,
         Placeable, ImageOf;
    if Checked(file).Some? {
      CheckedExtent(file);
      var (h, x) := Checked(file).value;
      CheckedPlaceable(Phdrs(file, h, h.phnum), file, x);
    }
  }

  // ---- The code ----

  /** The allocated pages hold the image: byte i is byte i % 4096 of page i / 4096. */
  ghost predicate Holds(frames: array2<byte>, image: seq<byte>)
    reads frames
  {
    && frames.Length1 == PAGE_SIZE && |image| <= frames.Length0 * 4096
    && forall i :: 0 <= i < |image| ==> frames[i / 4096, i % 4096] == image[i]
  }

  /** The pages past the image are as they were. */
  twostate predicate OthersKept(frames: array2<byte>, n: nat)
    reads frames
  {
    forall p, o :: 0 <= p < frames.Length0 && 0 <= o < frames.Length1 && n <= p * 4096 + o ==>
      frames[p, o] == old(frames[p, o])
  }

  /** memcpy into one page. */
  method StoreInPage(frames: array2<byte>, page: nat, offset: nat, data: seq<byte>, ghost image: seq<byte>)
    requires Holds(frames, image) && page < frames.Length0 && offset + |data| <= PAGE_SIZE
    requires page * 4096 + offset + |data| <= |image|
    modifies frames
    ensures Holds(frames, Splice(image, page * 4096 + offset, data)) && OthersKept(frames, |image|)
  {
    forall i | 0 <= i < |data| {
      frames[page, offset + i] := data[i];
    }
    forall i | 0 <= i < |image|
      ensures frames[i / 4096, i % 4096] == Splice(image, page * 4096 + offset, data)[i]
    {
      SpliceByte(image, page * 4096 + offset, data, i);
      hide Splice;
    }
  }

  /** The image with the data in its place, where no data at all may start anywhere. */
  function Placed(image: seq<byte>, offset: nat, data: seq<byte>): (r: seq<byte>)
    requires data == [] || offset + |data| <= |image|
    ensures |r| == |image|
  {
    if data == [] then image else Splice(image, offset, data)
  }

  lemma PlacedMore(image: seq<byte>, offset: nat, a: seq<byte>, b: seq<byte>)
    requires b != [] && offset + |a| + |b| <= |image|
    ensures Splice(Placed(image, offset, a), offset + |a|, b) == Placed(image, offset, a + b)
  {
    if a == [] {
      assert a + b == b;
    } else {
      SpliceTwice(image, offset, a, b);
    }
  }

  /** The page of an offset below 2^44 survives the cast to 32 bits, and is one of the image's exactly when the offset
      is. */
  lemma PageOfOffset(offset: nat, pageCount: u32)
    requires offset < OFFSET_MAX
    ensures offset / 4096 % 0x1_0000_0000 == offset / 4096
    ensures offset / 4096 >= pageCount <==> offset >= pageCount * 4096
  {
  }

  /** One chunk of the copy: into one page, or split at the end of a page, or refused when it leaves the image. */
  method StoreChunk(frames: array2<byte>, pageCount: u32, offset: nat, data: seq<byte>, ghost image: seq<byte>)
    returns (ok: bool)
    requires Holds(frames, image) && |image| == pageCount * 4096
    requires 0 < |data| <= LOAD_CHUNK_SIZE && offset + |data| <= OFFSET_MAX
    modifies frames
    ensures ok <==> offset + |data| <= |image|
    ensures ok ==> Holds(frames, Splice(image, offset, data))
    ensures OthersKept(frames, |image|)
  {
    hide Splice;
    PageOfOffset(offset, pageCount);
    var pageIndex, pageOffset := offset / 4096 % 0x1_0000_0000, offset % 4096;
    if pageIndex >= pageCount {
      return false;
    }
    var copySize := Min(PAGE_SIZE - pageOffset, |data|);
    StoreInPage(frames, pageIndex, pageOffset, data[..copySize], image);
    if copySize < |data| {
      pageIndex := pageIndex + 1;
      if pageIndex >= pageCount {
        return false;
      }
      StoreInPage(frames, pageIndex, 0, data[copySize..], Splice(image, offset, data[..copySize]));
      SpliceTwice(image, offset, data[..copySize], data[copySize..]);
      assert data[..copySize] + data[copySize..] == data;
    } else {
      assert data[..copySize] == data;
    }
    return true;
  }

  /** user_copy_file_range_into_pages: the chunked, page-split copy is one flat copy, and touches no other page. It
      fails exactly when the file is too short or the destination leaves the image. */
  method CopyFileRange(file: seq<byte>, fileOffset: nat, destVa: u64, size: u64, base: u64,
                       frames: array2<byte>, pageCount: u32, ghost image: seq<byte>) returns (ok: bool)
    requires Holds(frames, image) && |image| == pageCount * 4096
    requires base <= destVa && destVa - base + size <= OFFSET_MAX
    modifies frames
    ensures ok <==> fileOffset + size <= |file| && (size == 0 || destVa - base + size <= |image|)
    ensures ok ==> Holds(frames, Placed(image, destVa - base, file[fileOffset..fileOffset + size]))
    ensures OthersKept(frames, |image|)
  {
    hide Splice, Placed;
    if fileOffset > |file| {
      return false;
    }
    ghost var start := destVa - base;
    var position, copied := fileOffset, 0;
    PlacedNothing(image, start, file, fileOffset);
    while copied < size
      invariant 0 <= copied <= size && position == fileOffset + copied <= |file|
      invariant copied == 0 || start + copied <= |image|
      invariant Holds(frames, Placed(image, start, file[fileOffset..position])) && OthersKept(frames, |image|)
    {
      var chunkSize := Min(LOAD_CHUNK_SIZE, size - copied);
      var buffer := file[position..Min(position + chunkSize, |file|)];
      ghost var before := file[fileOffset..position];
      JoinedSlices(file, fileOffset, position, Min(position + chunkSize, |file|));
      position := position + |buffer|;
      if |buffer| != chunkSize {
        return false;
      }
      ok := StoreChunk(frames, pageCount, destVa - base + copied, buffer, Placed(image, start, before));
      if !ok {
        return;
      }
      PlacedMore(image, start, before, buffer);
      copied := copied + chunkSize;
    }
    return true;
  }

  lemma JoinedSlices(s: seq<byte>, i: nat, j: nat, k: nat)
    requires i <= j <= k <= |s|
    ensures s[i..j] + s[j..k] == s[i..k]
  {
  }

  lemma PlacedNothing(image: seq<byte>, offset: nat, file: seq<byte>, fileOffset: nat)
    requires fileOffset <= |file|
    ensures file[fileOffset..fileOffset] == [] && Placed(image, offset, []) == image
  {
  }

  lemma MoreZeros(n: nat, m: nat)
    ensures Zeros(n + m) == Zeros(n) + Zeros(m)
  {
  }

  /** user_zero_range_in_pages: the page-split clear is one flat clear, and touches no other page. It fails exactly when
      the range leaves the image. */
  method ZeroRange(startVa: u64, size: u64, base: u64, frames: array2<byte>, pageCount: u32, ghost image: seq<byte>)
    returns (ok: bool)
    requires Holds(frames, image) && |image| == pageCount * 4096
    requires base <= startVa && startVa - base + size <= OFFSET_MAX
    modifies frames
    ensures ok <==> size == 0 || startVa - base + size <= |image|
    ensures ok ==> Holds(frames, Placed(image, startVa - base, Zeros(size)))
    ensures OthersKept(frames, |image|)
  {
    hide Splice, Zeros, Placed;
    var cleared := 0;
    ghost var start := startVa - base;
    NoZeros(image, start);
    while cleared < size
      invariant 0 <= cleared <= size && (cleared == 0 || start + cleared <= |image|)
      invariant Holds(frames, Placed(image, start, Zeros(cleared))) && OthersKept(frames, |image|)
    {
      ok, cleared := ClearChunk(startVa, size, base, frames, pageCount, image, cleared);
      if !ok {
        return;
      }
    }
    return true;
  }

  /** One turn of the clearing loop. */
  method ClearChunk(startVa: u64, size: u64, base: u64, frames: array2<byte>, pageCount: u32, ghost image: seq<byte>,
                    cleared: nat) returns (ok: bool, now: nat)
    requires |image| == pageCount * 4096 && base <= startVa && startVa - base + size <= OFFSET_MAX && cleared < size
    requires cleared == 0 || startVa - base + cleared <= |image|
    requires Holds(frames, Placed(image, startVa - base, Zeros(cleared)))
    modifies frames
    ensures ok <==> startVa - base + cleared < |image|
    ensures ok ==> cleared < now <= size && startVa - base + now <= |image|
    ensures ok ==> Holds(frames, Placed(image, startVa - base, Zeros(now)))
    ensures OthersKept(frames, |image|)
  {
    hide Splice, Zeros, Placed;
    var offset := startVa - base + cleared;
    PageOfOffset(offset, pageCount);
    var pageIndex, pageOffset := offset / 4096 % 0x1_0000_0000, offset % 4096;
    if pageIndex >= pageCount {
      return false, cleared;
    }
    var clearSize := Min(PAGE_SIZE - pageOffset, size - cleared);
    StoreInPage(frames, pageIndex, pageOffset, Zeros(clearSize), Placed(image, startVa - base, Zeros(cleared)));
    PlacedMore(image, startVa - base, Zeros(cleared), Zeros(clearSize));
    MoreZeros(cleared, clearSize);
    return true, cleared + clearSize;
  }

  lemma NoZeros(image: seq<byte>, offset: nat)
    ensures Zeros(0) == [] && Placed(image, offset, Zeros(0)) == image
  {
  }

  lemma PlacedTwice(image: seq<byte>, offset: nat, a: seq<byte>, b: seq<byte>)
    requires offset + |a| + |b| <= |image|
    ensures Placed(Placed(image, offset, a), offset + |a|, b) == Splice(image, offset, a + b)
  {
    if b == [] {
      assert a + b == a;
      SpliceNothing(image, offset);
    } else {
      PlacedMore(image, offset, a, b);
    }
  }

  /** The body of the second pass for one loadable header that lies inside the image and the file. */
  method LoadSegment(file: seq<byte>, p: Phdr, base: u64, frames: array2<byte>, pageCount: u32, ghost image: seq<byte>)
    returns (ok: bool)
    requires Holds(frames, image) && |image| == pageCount * 4096
    requires p.filesz <= p.memsz && p.offset + p.filesz <= |file| < TWO_32
    requires base <= p.vaddr && p.vaddr + p.memsz <= base + |image| < TWO_64
    modifies frames
    ensures ok && Holds(frames, Splice(image, p.vaddr - base, SegmentImage(file, p))) && OthersKept(frames, |image|)
  {
    hide Splice, Zeros, Placed;
    ghost var data, zeros := file[p.offset..p.offset + p.filesz], Zeros(p.memsz - p.filesz);
    ghost var start := p.vaddr - base;
    PlacedTwice(image, start, data, zeros);
    PlacedNothing(image, start, file, p.offset);
    NoZeros(Placed(image, start, data), start + |data|);
    ok := true;
    if p.filesz > 0 {
      ok := CopyFileRange(file, p.offset % 0x1_0000_0000, p.vaddr, p.filesz, base, frames, pageCount, image);
      if !ok {
        return;
      }
    }
    assert Holds(frames, Placed(image, start, data));
    if p.memsz > p.filesz {
      ok := ZeroRange(p.vaddr + p.filesz, p.memsz - p.filesz, base, frames, pageCount, Placed(image, start, data));
    }
  }

  /** The i-th program header, at the offset that the code computes for it. */
  method ReadPhdr(file: seq<byte>, h: Ehdr, i: nat) returns (p: Phdr)
    requires |file| < TWO_32 && PhdrsInFile(file, h) && h.phentsize == PHDR_SIZE && i < h.phnum
    ensures p == PhdrAt(file, h.phoff + i * 56)
    ensures Phdrs(file, h, i + 1) == Phdrs(file, h, i) + [p]
  {
    hide DecodePhdr;
    var headerOffset := Add64(h.phoff, i * h.phentsize) % 0x1_0000_0000;
    assert headerOffset == h.phoff + i * 56;
    p := DecodePhdr(file[headerOffset..headerOffset + PHDR_SIZE]);
  }

  lemma PhdrsPrefix(file: seq<byte>, h: Ehdr, i: nat, n: nat)
    requires PhdrsInFile(file, h) && i <= n <= h.phnum
    ensures Phdrs(file, h, n)[..i] == Phdrs(file, h, i)
  {
    hide PhdrAt;
    if i < n {
      PhdrsPrefix(file, h, i, n - 1);
      assert Phdrs(file, h, n)[..i] == Phdrs(file, h, n - 1)[..i];
    }
  }

  lemma PassOneSnoc(ps: seq<Phdr>, p: Phdr, fileSize: u32)
    ensures PassOne(ps + [p], fileSize)
         == match PassOne(ps, fileSize)
            case None => None
            case Some(x) => if !Loads(p) then Some(x) else if !PhdrValid(p, fileSize) then None else Some(Extend(x, p))
  {
    assert (ps + [p])[..|ps|] == ps;
  }

  /** Once a header has been refused, the pass has failed. */
  lemma {:induction false} PassOneFails(ps: seq<Phdr>, n: nat, fileSize: u32)
    requires n <= |ps| && PassOne(ps[..n], fileSize).None?
    ensures PassOne(ps, fileSize).None?
    decreases |ps|
  {
    if n < |ps| {
      assert ps[..|ps| - 1][..n] == ps[..n];
      PassOneFails(ps[..|ps| - 1], n, fileSize);
    } else {
      assert ps[..n] == ps;
    }
  }

  /** The loop of the first pass. */
  method FirstPass(file: seq<byte>, h: Ehdr) returns (r: Option<Extent>)
    requires |file| < TWO_32 && PhdrsInFile(file, h) && h.phentsize == PHDR_SIZE
    ensures r == PassOne(Phdrs(file, h, h.phnum), |file|)
  {
    hide PassOne, Phdrs, PhdrAt, PhdrValid, Extend;
    ghost var all := Phdrs(file, h, h.phnum);
    NoPhdrs(file, h);
    var x := Extent(TWO_64 - 1, 0, false);
    for i := 0 to h.phnum
      invariant PassOne(Phdrs(file, h, i), |file|) == Some(x)
    {
      var p := ReadPhdr(file, h, i);
      PassOneSnoc(Phdrs(file, h, i), p, |file|);
      if !Loads(p) {
        continue;
      }
      if !PhdrValid(p, |file|) {
        PhdrsPrefix(file, h, i + 1, h.phnum);
        PassOneFails(all, i + 1, |file|);
        return None;
      }
      x := Extend(x, p);
    }
    return Some(x);
  }

  lemma NoPhdrs(file: seq<byte>, h: Ehdr)
    requires PhdrsInFile(file, h)
    ensures Phdrs(file, h, 0) == [] && PassOne([], |file| % TWO_32) == Some(Extent(TWO_64 - 1, 0, false))
  {
  }

  /** user_alloc_program_pages, when the allocator still has `available` pages: every page handed out is cleared, and it
      fails exactly when they run out. */
  method AllocPages(frames: array2<byte>, pageCount: u32, available: nat) returns (ok: bool)
    requires pageCount <= frames.Length0 && frames.Length1 == PAGE_SIZE
    modifies frames
    ensures ok <==> pageCount <= available
    ensures ok ==> Holds(frames, Zeros(pageCount * 4096))
    ensures OthersKept(frames, pageCount * 4096)
  {
    for index := 0 to pageCount
      invariant index <= available
      invariant forall p, o :: 0 <= p < index && 0 <= o < PAGE_SIZE ==> frames[p, o] == 0
      invariant OthersKept(frames, pageCount * 4096)
    {
      if index == available {
        return false;
      }
      forall o | 0 <= o < PAGE_SIZE {
        frames[index, o] := 0;
      }
    }
    return true;
  }

  /** The writable flags after the headers ps. */
  ghost predicate FlagsFor(flags: seq<bool>, ps: seq<Phdr>, base: u64) {
    forall page :: 0 <= page < |flags| ==> flags[page] == PageWritable(ps, base, page)
  }

  lemma PageWritableSnoc(ps: seq<Phdr>, p: Phdr, base: u64, page: nat)
    ensures PageWritable(ps + [p], base, page)
        <==> PageWritable(ps, base, page) || (WriteFlag(p) && base <= p.vaddr && Touches(p, base, page))
  {
    hide WriteFlag, Touches;
    var all := ps + [p];
    if PageWritable(ps, base, page) {
      var i :| 0 <= i < |ps| && WriteFlag(ps[i]) && base <= ps[i].vaddr && Touches(ps[i], base, page);
      assert all[i] == ps[i];
    }
    assert all[|ps|] == p;
  }

  /** The flag loop of the second pass for one header. */
  method MarkWritable(p: Phdr, base: u64, writable: array<bool>, pageCount: u32, ghost ps: seq<Phdr>)
    requires pageCount <= writable.Length && FlagsFor(writable[..pageCount], ps, base)
    requires Loads(p) && base <= p.vaddr && LastPage(p, base) < pageCount
    requires FirstPage(p, base) == (p.vaddr - base) / 4096 && LastPage(p, base) == (p.vaddr - base + p.memsz - 1) / 4096
    modifies writable
    ensures FlagsFor(writable[..pageCount], ps + [p], base)
  {
    hide PageWritable, WriteFlag, FirstPage, LastPage;
    ghost var before := writable[..];
    if WriteFlag(p) {
      var pageIndex := FirstPage(p, base);
      while pageIndex <= LastPage(p, base)
        invariant FirstPage(p, base) <= pageIndex <= LastPage(p, base) + 1
        invariant forall k :: 0 <= k < writable.Length ==>
          writable[k] == (before[k] || FirstPage(p, base) <= k < pageIndex)
      {
        writable[pageIndex] := true;
        pageIndex := pageIndex + 1;
      }
    }
    forall page | 0 <= page < pageCount
      ensures writable[..pageCount][page] == PageWritable(ps + [p], base, page)
    {
      PageWritableSnoc(ps, p, base, page);
      assert before[..pageCount][page] == PageWritable(ps, base, page) by {
        assert before[..pageCount][page] == before[page];
      }
    }
  }

  /** What the first pass says about one loadable header. */
  lemma HeaderFacts(ps: seq<Phdr>, i: nat, fileSize: u32, x: Extent)
    requires PassOne(ps, fileSize) == Some(x) && i < |ps| && Loads(ps[i])
    ensures PhdrValid(ps[i], fileSize)
    ensures x.base <= PageDown(ps[i].vaddr) && PageUp(Add64(ps[i].vaddr, ps[i].memsz)) <= x.end
  {
    hide PassOne, PhdrValid, PageUp, PageDown, Add64;
    PassOneExtent(ps, fileSize);
  }

  lemma PlaceableSnoc(file: seq<byte>, ps: seq<Phdr>, p: Phdr, base: u64, n: nat)
    requires Placeable(file, ps, base, n)
    requires Loads(p) ==> p.filesz <= p.memsz && p.offset + p.filesz <= |file|
    requires Loads(p) ==> base <= p.vaddr && p.vaddr + p.memsz <= base + n < TWO_64
    ensures Placeable(file, ps + [p], base, n)
    ensures ImageOf(file, ps + [p], base, n)
         == if Loads(p) then Splice(ImageOf(file, ps, base, n), p.vaddr - base, SegmentImage(file, p))
           else ImageOf(file, ps, base, n)
  {
    hide Splice, SegmentImage, Loads;
    assert (ps + [p])[..|ps|] == ps;
  }

  lemma PagesInsideSnoc(ps: seq<Phdr>, p: Phdr, base: u64, count: u32)
    ensures PagesInside(ps + [p], base, count)
      <==> PagesInside(ps, base, count) && (Loads(p) ==> LastPage(p, base) < count)
  {
    hide Loads, LastPage;
    var all := ps + [p];
    assert all[|ps|] == p;
    assert forall i :: 0 <= i < |ps| ==> all[i] == ps[i];
  }

  lemma EntryCoveredSnoc(ps: seq<Phdr>, p: Phdr, entry: u64)
    ensures EntryCovered(ps + [p], entry) <==> EntryCovered(ps, entry) || Covers(p, entry)
  {
    hide Covers;
    var all := ps + [p];
    assert all[|ps|] == p;
    assert forall i :: 0 <= i < |ps| ==> all[i] == ps[i];
  }

  lemma NotInside(file: seq<byte>, h: Ehdr, i: nat, base: u64, count: u32)
    requires PhdrsInFile(file, h) && i <= h.phnum
    ensures PagesInside(Phdrs(file, h, h.phnum), base, count) ==> PagesInside(Phdrs(file, h, i), base, count)
  {
    hide Loads, LastPage, Phdrs;
    var all := Phdrs(file, h, h.phnum);
    PhdrsPrefix(file, h, i, h.phnum);
    assert forall k :: 0 <= k < i ==> all[..i][k] == all[k];
  }

  /** The pages and flags after the headers ps. */
  ghost predicate PlacedSoFar(file: seq<byte>, ps: seq<Phdr>, x: Extent, frames: array2<byte>, flags: seq<bool>)
    requires x.base <= x.end
    reads frames
  {
    && Placeable(file, ps, x.base, x.end - x.base)
    && Holds(frames, ImageOf(file, ps, x.base, x.end - x.base)) && FlagsFor(flags, ps, x.base)
  }

  /** A header that is not loadable changes nothing. */
  lemma SkipHeader(file: seq<byte>, ps: seq<Phdr>, p: Phdr, x: Extent, frames: array2<byte>, flags: seq<bool>)
    requires x.base <= x.end && PlacedSoFar(file, ps, x, frames, flags) && !Loads(p)
    ensures PlacedSoFar(file, ps + [p], x, frames, flags)
  {
    hide Loads, ImageOf, FlagsFor, Placeable;
    PlaceableSnoc(file, ps, p, x.base, x.end - x.base);
    FlagsKept(flags, ps, p, x.base);
  }

  /** One turn of the second pass. */
  method PlaceHeader(file: seq<byte>, p: Phdr, x: Extent, frames: array2<byte>, writable: array<bool>, pageCount: u32,
                     ghost ps: seq<Phdr>) returns (ok: bool)
    requires |file| < TWO_32 && Loads(p) && PhdrValid(p, |file|) && ExtentOk(x)
      && pageCount == PageCount(x.end - x.base)
    requires x.base <= PageDown(p.vaddr) && PageUp(Add64(p.vaddr, p.memsz)) <= x.end
    requires pageCount <= writable.Length && PlacedSoFar(file, ps, x, frames, writable[..pageCount])
    modifies frames, writable
    ensures ok <==> LastPage(p, x.base) < pageCount
    ensures ok ==> PlacedSoFar(file, ps + [p], x, frames, writable[..pageCount])
    ensures OthersKept(frames, x.end - x.base)
  {
    hide Loads, PhdrValid, PageDown, PageUp, Add64, LastPage, FirstPage, PageCount, ImageOf, Placeable,
         FlagsFor, Splice, SegmentImage, EndWraps, ExtentOk;
    SegmentReady(p, |file|, x);
    if LastPage(p, x.base) >= pageCount {
      return false;
    }
    MarkWritable(p, x.base, writable, pageCount, ps);
    ok := LoadSegment(file, p, x.base, frames, pageCount, ImageOf(file, ps, x.base, x.end - x.base));
    PlaceableSnoc(file, ps, p, x.base, x.end - x.base);
  }

  /** What the check of the second pass leaves to the copy. */
  lemma SegmentReady(p: Phdr, fileSize: u32, x: Extent)
    requires Loads(p) && PhdrValid(p, fileSize) && ExtentOk(x)
    requires x.base <= PageDown(p.vaddr) && PageUp(Add64(p.vaddr, p.memsz)) <= x.end
    ensures x.end < TWO_64 && x.end - x.base == PageCount(x.end - x.base) * 4096
      && PageCount(x.end - x.base) < 0x10_0000
    ensures LastPage(p, x.base) < PageCount(x.end - x.base) ==>
      && p.filesz <= p.memsz && p.offset + p.filesz <= fileSize
      && x.base <= p.vaddr && p.vaddr + p.memsz <= x.end
      && FirstPage(p, x.base) == (p.vaddr - x.base) / 4096
      && LastPage(p, x.base) == (p.vaddr - x.base + p.memsz - 1) / 4096
  {
    hide PhdrValid, PageDown, PageUp, Add64, LastPage, FirstPage, PageCount, ProgramRangeValid, EndWraps;
    LastPageCheck(p, fileSize, x);
    ValidSegment(p, fileSize);
    ExtentPages(x);
  }

  /** One turn of the loop of the second pass. */
  method PlaceNext(file: seq<byte>, h: Ehdr, x: Extent, frames: array2<byte>, writable: array<bool>, pageCount: u32,
                   i: nat, mapped: bool) returns (ok: bool, entryMapped: bool)
    requires |file| < TWO_32 && PhdrsInFile(file, h) && h.phentsize == PHDR_SIZE && i < h.phnum
    requires PassOne(Phdrs(file, h, h.phnum), |file|) == Some(x) && ExtentOk(x)
      && pageCount == PageCount(x.end - x.base)
    requires pageCount <= writable.Length && PlacedSoFar(file, Phdrs(file, h, i), x, frames, writable[..pageCount])
    requires mapped == EntryCovered(Phdrs(file, h, i), h.entry) && PagesInside(Phdrs(file, h, i), x.base, pageCount)
    modifies frames, writable
    ensures !ok ==> !PagesInside(Phdrs(file, h, h.phnum), x.base, pageCount)
    ensures ok ==> entryMapped == EntryCovered(Phdrs(file, h, i + 1), h.entry)
    ensures ok ==> PagesInside(Phdrs(file, h, i + 1), x.base, pageCount)
    ensures ok ==> PlacedSoFar(file, Phdrs(file, h, i + 1), x, frames, writable[..pageCount])
    ensures OthersKept(frames, x.end - x.base)
  {
    ExtentOrdered(x);
    hide PhdrValid, PageDown, PageUp, Add64, LastPage, PageCount, PlacedSoFar, PagesInside, EntryCovered,
         PassOne, Phdrs, PhdrAt, Covers, Loads, ExtentOk, Holds, Zeros, FlagsFor;
    ghost var all, ps := Phdrs(file, h, h.phnum), Phdrs(file, h, i);
    entryMapped := mapped;
    var p := ReadPhdr(file, h, i);
    NthPhdr(file, h, i, p);
    PagesInsideSnoc(ps, p, x.base, pageCount);
    EntryCoveredSnoc(ps, p, h.entry);
    if !Loads(p) {
      SkipHeader(file, ps, p, x, frames, writable[..pageCount]);
      NothingLoaded(p, h.entry);
      return true, entryMapped;
    }
    if Covers(p, h.entry) {
      entryMapped := true;
    }
    HeaderFacts(all, i, |file|, x);
    ok := PlaceHeader(file, p, x, frames, writable, pageCount, ps);
    if !ok {
      NotInside(file, h, i + 1, x.base, pageCount);
    }
  }

  /** The loop of the second pass. */
  method SecondPass(file: seq<byte>, h: Ehdr, x: Extent, frames: array2<byte>, writable: array<bool>, pageCount: u32)
    returns (ok: bool)
    requires |file| < TWO_32 && PhdrsInFile(file, h) && h.phentsize == PHDR_SIZE
    requires PassOne(Phdrs(file, h, h.phnum), |file|) == Some(x) && ExtentOk(x)
      && pageCount == PageCount(x.end - x.base)
    requires pageCount <= writable.Length && Holds(frames, Zeros(x.end - x.base))
      && FlagsFor(writable[..pageCount], [], x.base)
    modifies frames, writable
    ensures ok <==>
      && PagesInside(Phdrs(file, h, h.phnum), x.base, pageCount)
      && EntryCovered(Phdrs(file, h, h.phnum), h.entry)
    ensures ok ==> PlacedSoFar(file, Phdrs(file, h, h.phnum), x, frames, writable[..pageCount])
    ensures OthersKept(frames, x.end - x.base)
  {
    ghost var n := x.end - x.base;
    NothingPlacedYet(file, h, x, frames, writable[..pageCount]);
    ExtentOrdered(x);
    hide PhdrValid, PageDown, PageUp, Add64, LastPage, PageCount, PlacedSoFar, PagesInside, EntryCovered,
         PassOne, Phdrs, PhdrAt, Covers, Loads, ExtentOk, Holds, Zeros, FlagsFor, PhdrsInFile;
    var entryMapped := false;
    for i := 0 to h.phnum
      invariant entryMapped == EntryCovered(Phdrs(file, h, i), h.entry)
      invariant PagesInside(Phdrs(file, h, i), x.base, pageCount)
      invariant PlacedSoFar(file, Phdrs(file, h, i), x, frames, writable[..pageCount])
      invariant OthersKept(frames, n)
    {
      ok, entryMapped := PlaceNext(file, h, x, frames, writable, pageCount, i, entryMapped);
      if !ok {
        return false;
      }
    }
    return entryMapped;
  }

  lemma ExtentOrdered(x: Extent)
    requires ExtentOk(x)
    ensures x.base < x.end
  {
  }

  lemma NothingPlacedYet(file: seq<byte>, h: Ehdr, x: Extent, frames: array2<byte>, flags: seq<bool>)
    requires PhdrsInFile(file, h) && ExtentOk(x) && Holds(frames, Zeros(x.end - x.base)) && FlagsFor(flags, [], x.base)
    ensures Phdrs(file, h, 0) == [] && PlacedSoFar(file, [], x, frames, flags)
    ensures !EntryCovered([], h.entry)
    ensures forall count: u32 :: PagesInside([], x.base, count)
  {
  }

  lemma NthPhdr(file: seq<byte>, h: Ehdr, i: nat, p: Phdr)
    requires PhdrsInFile(file, h) && i < h.phnum && Phdrs(file, h, i + 1) == Phdrs(file, h, i) + [p]
    ensures Phdrs(file, h, h.phnum)[i] == p
  {
    hide Phdrs;
    PhdrsPrefix(file, h, i + 1, h.phnum);
    assert Phdrs(file, h, h.phnum)[..i + 1][i] == p;
  }

  lemma NothingLoaded(p: Phdr, entry: u64)
    requires !Loads(p)
    ensures !Covers(p, entry)
  {
  }

  lemma FlagsKept(flags: seq<bool>, ps: seq<Phdr>, p: Phdr, base: u64)
    requires FlagsFor(flags, ps, base) && !Loads(p)
    ensures FlagsFor(flags, ps + [p], base)
  {
    hide PageWritable;
    forall page | 0 <= page < |flags|
      ensures flags[page] == PageWritable(ps + [p], base, page)
    {
      PageWritableSnoc(ps, p, base, page);
    }
  }

  /** user_run_elf_file up to the mapping: on success the first pages hold the program's image and flags, exactly as the
      specification says. It fails only for a refused file or when the allocator has no page for each page of the image
      and one for the stack. Whatever happens, only pages of the program's extent are written. */
  method RunElf(file: seq<byte>, frames: array2<byte>, writable: array<bool>, available: nat)
    returns (r: Option<(u64, u32, u64)>)
    requires |file| < TWO_32 && writable.Length == MAX_PROGRAM_PAGES
    requires frames.Length0 == MAX_PROGRAM_PAGES && frames.Length1 == PAGE_SIZE
    modifies frames, writable
    ensures r.Some? <==> LoadSpec(file).Some? && LoadSpec(file).value.pageCount < available
    ensures r.Some? ==>
      var p := LoadSpec(file).value;
      && r.value == (p.base, p.pageCount, p.entry) && p.pageCount <= MAX_PROGRAM_PAGES
      && |p.image| == p.pageCount * 4096
      && Holds(frames, p.image) && writable[..p.pageCount] == p.writable && OthersKept(frames, |p.image|)
    ensures OthersKept(frames, match ExtentOf(file) case None => 0 case Some((_, x)) => x.end - x.base)
  {
    hide PhdrValid, PageDown, PageUp, Add64, LastPage, PageCount, ImageOf, Splice, EhdrValid,
         PassOne, Phdrs, PhdrAt, Covers, Loads, Zeros, DecodeEhdr, PageWritable;
    if |file| < EHDR_SIZE {
      return None;
    }
    var h := DecodeEhdr(file[..EHDR_SIZE]);
    if !EhdrValid(h, |file|) {
      return None;
    }
    EhdrPhdrs(file, h);
    ValidSizes(h, |file|);
    var extent := FirstPass(file, h);
    if extent.None? {
      return None;
    }
    var x := extent.value;
    if !ExtentUsable(x, h.entry) {
      return None;
    }
    PassOneExtent(Phdrs(file, h, h.phnum), |file|);
    ExtentPages(x);
    var pageCount := PageCount(x.end - x.base);
    var ok := AllocPages(frames, pageCount, available);
    if !ok {
      return None;
    }
    forall page | 0 <= page < pageCount {
      writable[page] := false;
    }
    NoFlags(writable[..pageCount], x.base);
    ok := SecondPass(file, h, x, frames, writable, pageCount);
    if !ok || pageCount == available {
      return None;
    }
    return Some((x.base, pageCount, h.entry));
  }

  lemma ValidSizes(h: Ehdr, fileSize: u32)
    requires |h.ident| == 16 && EhdrValid(h, fileSize)
    ensures h.phentsize == PHDR_SIZE
  {
  }

  lemma NoFlags(flags: seq<bool>, base: u64)
    requires forall k :: 0 <= k < |flags| ==> !flags[k]
    ensures FlagsFor(flags, [], base)
  {
  }
}
