/** What a user program sees: the loaded image through the translation tables. */
module UserMemory {
  import opened Bytes
  import opened ElfFormat
  import opened UserLoader
  import PM = PageModel
  import PT = TranslationTables

  /** Physical memory with the image of the program in the given pages. */
  ghost predicate ImageInMemory(memory: u64 -> byte, pages: seq<u64>, image: seq<byte>)
    requires PT.PagesOk(pages)
  {
    |image| == |pages| * 4096
    && forall i :: 0 <= i < |image| ==> memory(pages[i / 4096] + i % 4096) == image[i]
  }

  /** The user table while a program runs. */
  function ProgramTable(user: seq<u64>, p: Program, pages: seq<u64>, stack: u64): (t: seq<u64>)
    requires |user| == 512 && PT.PagesOk(pages) && stack < PT.PA_LIMIT
    ensures |t| == 512
  {
    if |pages| == |p.writable| && p.base + |pages| * 4096 < TWO_64 then
      PT.MapProgram(user, p.base, pages, p.writable, stack)
    else user
  }

  /** What the tables say about an address while a program runs. */
  function WalkProgram(p: Program, at: PT.Addresses, user: seq<u64>, pages: seq<u64>, stack: u64, va: u64):
      Option<PT.Mapping>
    requires PT.AddressesOk(at) && |user| == 512 && PT.PagesOk(pages) && stack < PT.PA_LIMIT && va < PT.VA_LIMIT
  {
    PT.Walk(PT.Built(at).(user := ProgramTable(user, p, pages, stack)), va)
  }

  /** End to end: a program that the loader accepts, mapped by the kernel, reads at every address of its image the byte
      that the last loadable header covering the address puts there (or zero), can write exactly the pages touched by
      writable segments, can execute exactly the others, whatever the execute flags say, and starts at a mapped, covered
      address. */
  lemma ProgramSeesItsSegments(file: seq<byte>, p: Program, at: PT.Addresses, user: seq<u64>, pages: seq<u64>,
                               stack: u64, memory: u64 -> byte, va: u64)
    requires |file| < TWO_32 && LoadSpec(file) == Some(p) && PT.AddressesOk(at) && |user| == 512
    requires PT.PagesOk(pages) && |pages| == p.pageCount && stack < PT.PA_LIMIT && stack % 4096 == 0
    requires ImageInMemory(memory, pages, p.image) && p.base <= va < p.base + |p.image| && va < PT.VA_LIMIT
    ensures var ps := HeadersOf(file);
      var m := WalkProgram(p, at, user, pages, stack, va);
      && m.Some? && PT.El0CanRead(m.value.attrs) && memory(m.value.pa) == ByteFor(file, ps, va)
      && PT.El0CanWrite(m.value.attrs) == PageWritable(ps, p.base, (va - p.base) / 4096)
      && PT.El0CanExecute(m.value.attrs) == !PageWritable(ps, p.base, (va - p.base) / 4096)
      && p.base <= p.entry < p.base + |p.image| && EntryCovered(ps, p.entry)
  {
    hide LoadSpec, HeadersOf, PT.Walk, PT.Built, PT.MapProgram, ByteFor, PageWritable, EntryCovered,
         PT.El0CanRead, PT.El0CanWrite, PT.El0CanExecute, PT.El1CanExecute, PT.UserAttrs;
    LoadedImage(file);
    PT.ProgramTranslations(at, user, p.base, pages, p.writable, stack, va);
    var i := va - p.base;
    PT.WriteOrExecute(p.writable[i / 4096]);
    SameOffset(va, p.base);
    assert p.image[i] == memory(pages[i / 4096] + i % 4096);
  }

  // ---- Execution and the execute flags ----

  predicate Executable(m: Option<PT.Mapping>) {
    m.Some? && PT.El0CanExecute(m.value.attrs)
  }

  /** A page of a segment that asks to be executed. */
  predicate PageExec(ps: seq<Phdr>, base: u64, page: nat) {
    exists i :: 0 <= i < |ps| && ExecFlag(ps[i]) && base <= ps[i].vaddr && Touches(ps[i], base, page)
  }

  /** A page of an accepted program can be executed exactly when no writable segment touches it. */
  lemma ExecutableIff(file: seq<byte>, p: Program, at: PT.Addresses, user: seq<u64>, pages: seq<u64>, stack: u64,
                      va: u64)
    requires |file| < TWO_32 && LoadSpec(file) == Some(p) && PT.AddressesOk(at) && |user| == 512
    requires PT.PagesOk(pages) && |pages| == p.pageCount && stack < PT.PA_LIMIT && stack % 4096 == 0
    requires p.base <= va < p.base + |p.image|
    ensures va < PT.VA_LIMIT
    ensures Executable(WalkProgram(p, at, user, pages, stack, va))
       <==> !PageWritable(HeadersOf(file), p.base, (va - p.base) / 4096)
  {
    hide LoadSpec, HeadersOf, PT.Walk, PT.Built, PT.MapProgram, PageWritable, EntryCovered, ByteFor,
         PT.El0CanWrite, PT.El0CanRead, PT.El0CanExecute, PT.El1CanExecute, PT.UserAttrs;
    LoadedImage(file);
    PT.ProgramTranslations(at, user, p.base, pages, p.writable, stack, va);
    PT.WriteOrExecute(p.writable[(va - p.base) / 4096]);
  }

  /** The first instruction of an accepted program can be fetched exactly when no writable segment touches its page. */
  lemma EntryExecutableIff(file: seq<byte>, p: Program, at: PT.Addresses, user: seq<u64>, pages: seq<u64>, stack: u64)
    requires |file| < TWO_32 && LoadSpec(file) == Some(p) && PT.AddressesOk(at) && |user| == 512
    requires PT.PagesOk(pages) && |pages| == p.pageCount && stack < PT.PA_LIMIT && stack % 4096 == 0
    ensures p.base <= p.entry < p.base + |p.image| && p.entry < PT.VA_LIMIT
    ensures var ps := HeadersOf(file);
      Executable(WalkProgram(p, at, user, pages, stack, p.entry))
      <==> forall i :: 0 <= i < |ps| && p.base <= ps[i].vaddr && Touches(ps[i], p.base, (p.entry - p.base) / 4096) ==>
             !WriteFlag(ps[i])
  {
    hide LoadSpec, HeadersOf, WalkProgram, Executable, EntryCovered, ByteFor, Touches, WriteFlag;
    LoadedImage(file);
    ExecutableIff(file, p, at, user, pages, stack, p.entry);
  }

  /** Execution follows the execute flags at every address of the image exactly when each page belongs either to a
      segment to be executed or to one to be written, and not to both. */
  lemma ExecFlagsHonouredIff(file: seq<byte>, p: Program, at: PT.Addresses, user: seq<u64>, pages: seq<u64>, stack: u64)
    requires |file| < TWO_32 && LoadSpec(file) == Some(p) && PT.AddressesOk(at) && |user| == 512
    requires PT.PagesOk(pages) && |pages| == p.pageCount && stack < PT.PA_LIMIT && stack % 4096 == 0
    ensures p.base + |p.image| <= PT.VA_LIMIT
    ensures var ps := HeadersOf(file);
      && ((forall va :: p.base <= va < p.base + |p.image| && PageExec(ps, p.base, (va - p.base) / 4096) ==>
             Executable(WalkProgram(p, at, user, pages, stack, va)))
          <==> forall k :: 0 <= k < p.pageCount ==> !(PageExec(ps, p.base, k) && PageWritable(ps, p.base, k)))
      && ((forall va :: p.base <= va < p.base + |p.image| && Executable(WalkProgram(p, at, user, pages, stack, va)) ==>
             PageExec(ps, p.base, (va - p.base) / 4096))
          <==> forall k :: 0 <= k < p.pageCount ==> PageExec(ps, p.base, k) || PageWritable(ps, p.base, k))
  {
    hide LoadSpec, HeadersOf, WalkProgram, Executable, EntryCovered, ByteFor, PageWritable, PageExec;
    LoadedImage(file);
    var ps := HeadersOf(file);
    forall va | p.base <= va < p.base + |p.image|
      ensures Executable(WalkProgram(p, at, user, pages, stack, va))
         <==> !PageWritable(ps, p.base, (va - p.base) / 4096)
    {
      ExecutableIff(file, p, at, user, pages, stack, va);
    }
    forall k | 0 <= k < p.pageCount
      ensures p.base <= p.base + k * 4096 < p.base + |p.image| && (p.base + k * 4096 - p.base) / 4096 == k
      ensures Executable(WalkProgram(p, at, user, pages, stack, p.base + k * 4096)) <==> !PageWritable(ps, p.base, k)
    {
      ExecutableIff(file, p, at, user, pages, stack, p.base + k * 4096);
    }
  }

  /** The bytes of a small program: the ELF header, and one segment with all three flags, at 0x10000, that holds the
      whole file. */
  function RwxByte(i: nat): byte {
    match i
    case 0 => 0x7f
    case 1 => 69
    case 2 => 76
    case 3 => 70
    case 4 => 2
    case 5 => 1
    case 6 => 1
    case 16 => 2
    case 18 => 183
    case 20 => 1
    case 24 => 0x40
    case 26 => 1
    case 32 => 64
    case 52 => 64
    case 54 => 56
    case 56 => 1
    case 64 => 1
    case 68 => 7
    case 82 => 1
    case 96 => 120
    case 104 => 120
    case _ => 0
  }

  const RWX_FILE: seq<byte> := seq(120, i requires 0 <= i => RwxByte(i))
  const RWX_SEGMENT: Phdr := Phdr(PT_LOAD, 7, 0, 0x10000, 120, 120)

  lemma RwxEhdr()
    ensures var h := DecodeEhdr(RWX_FILE[..64]);
      EhdrValid(h, 120) && h.entry == 0x10040 && h.phoff == 64 && h.phnum == 1
  {
  }

  lemma RwxPhdr()
    ensures PhdrAt(RWX_FILE, 64) == RWX_SEGMENT
  {
  }

  lemma RwxHeaders()
    ensures PhdrsInFile(RWX_FILE, DecodeEhdr(RWX_FILE[..64]))
    ensures Phdrs(RWX_FILE, DecodeEhdr(RWX_FILE[..64]), 1) == [RWX_SEGMENT] == HeadersOf(RWX_FILE)
  {
    hide DecodeEhdr, PhdrAt, EhdrValid;
    RwxEhdr();
    RwxPhdr();
  }

  lemma RwxFirstPass()
    ensures PassOne([RWX_SEGMENT], 120) == Some(Extent(0x10000, 0x11000, true))
  {
    var ps := [RWX_SEGMENT];
    assert ps[..0] == [];
    assert PageDown(0x10000) == 0x10000 && Add64(0x10000, 120) == 0x10078 && PageUp(0x10078) == 0x11000;
    hide PageDown, PageUp, Add64;
    assert PassOne(ps[..0], 120) == Some(Extent(TWO_64 - 1, 0, false));
  }

  lemma RwxPasses()
    ensures PassOne([RWX_SEGMENT], 120) == Some(Extent(0x10000, 0x11000, true))
    ensures ExtentUsable(Extent(0x10000, 0x11000, true), 0x10040) && PageCount(0x1000) == 1
    ensures PagesInside([RWX_SEGMENT], 0x10000, 1) && EntryCovered([RWX_SEGMENT], 0x10040)
    ensures PageWritable([RWX_SEGMENT], 0x10000, 0)
  {
    RwxFirstPass();
    hide PassOne;
    var ps := [RWX_SEGMENT];
    assert Covers(ps[0], 0x10040);
    assert WriteFlag(ps[0]) && Touches(ps[0], 0x10000, 0);
  }

  /** The loader accepts it, and its one page is writable. */
  lemma RwxAccepted()
    ensures HeadersOf(RWX_FILE) == [RWX_SEGMENT] && LoadSpec(RWX_FILE).Some?
    ensures var p := LoadSpec(RWX_FILE).value; p.base == 0x10000 && p.entry == 0x10040 && p.writable == [true]
  {
    hide DecodeEhdr, EhdrValid, PassOne, ImageOf, Phdrs, ExtentUsable, PageCount, PagesInside, EntryCovered,
         PageWritable, PhdrsInFile, HeadersOf;
    RwxEhdr();
    RwxHeaders();
    RwxPasses();
  }

  /** It asks for its page to be executed, is accepted, and cannot fetch its first instruction. */
  lemma RwxCannotStart(at: PT.Addresses, user: seq<u64>, page: u64, stack: u64)
    requires PT.AddressesOk(at) && |user| == 512
    requires PT.PagesOk([page]) && stack < PT.PA_LIMIT && stack % 4096 == 0
    ensures LoadSpec(RWX_FILE).Some?
    ensures var p := LoadSpec(RWX_FILE).value;
      && p.entry < PT.VA_LIMIT && PageExec(HeadersOf(RWX_FILE), p.base, (p.entry - p.base) / 4096)
      && !Executable(WalkProgram(p, at, user, [page], stack, p.entry))
  {
    hide LoadSpec, HeadersOf, WalkProgram, Executable, EntryCovered, ByteFor;
    RwxAccepted();
    LoadedImage(RWX_FILE);
    var p := LoadSpec(RWX_FILE).value;
    var ps := HeadersOf(RWX_FILE);
    EntryExecutableIff(RWX_FILE, p, at, user, [page], stack);
    assert WriteFlag(ps[0]) && ExecFlag(ps[0]) && Touches(ps[0], p.base, 0);
  }

  // ---- The pages come from the page allocator ----

  /** The bytes of the frames are what physical memory holds at the addresses of the pages. */
  ghost predicate FramesAt(memory: u64 -> byte, frames: array2<byte>, pages: seq<u64>)
    requires PT.PagesOk(pages)
    reads frames
  {
    && frames.Length1 == PAGE_SIZE && |pages| <= frames.Length0
    && forall k, o :: 0 <= k < |pages| && 0 <= o < 4096 ==> memory(pages[k] + o) == frames[k, o]
  }

  /** The addresses of n pages held by a client of the allocator, from number `from` on. */
  function HeldPages(l: PM.Layout, held: seq<nat>, from: nat, n: nat): (pages: seq<nat>)
    requires from + n <= |held|
    ensures |pages| == n && forall k :: 0 <= k < n ==> pages[k] == PM.PageAddress(l, held[from + k])
  {
    if n == 0 then [] else HeldPages(l, held, from, n - 1) + [PM.PageAddress(l, held[from + n - 1])]
  }

  /** Pages held at the same time are distinct pages of RAM. */
  lemma HeldPagesApart(l: PM.Layout, s: PM.State, from: nat, n: nat)
    requires PM.LayoutOk(l) && PM.Owned(l, s) && from + n <= |s.held| && l.ramBase + l.ramSize <= PT.PA_LIMIT
    ensures var pages := HeldPages(l, s.held, from, n);
      && (forall k :: 0 <= k < n ==> pages[k] < PT.PA_LIMIT && pages[k] % 4096 == 0)
      && Distinct(pages)
  {
    var pages := HeldPages(l, s.held, from, n);
    hide PM.LayoutOk, PM.Reserved;
    forall k | 0 <= k < n
      ensures pages[k] < PT.PA_LIMIT && pages[k] % 4096 == 0
    {
      HeldInRam(l, s, from + k);
    }
    forall i, j | 0 <= i < j < n
      ensures pages[i] != pages[j]
    {
      assert s.held[from + i] != s.held[from + j];
    }
  }

  lemma HeldInRam(l: PM.Layout, s: PM.State, i: nat)
    requires PM.LayoutOk(l) && PM.Owned(l, s) && i < |s.held|
    ensures PM.PageAddress(l, s.held[i]) < l.ramBase + l.ramSize && PM.PageAddress(l, s.held[i]) % 4096 == 0
  {
    hide PM.Reserved;
    assert s.held[i] in s.held;
    PM.PageOfAddress(l, s.held[i]);
  }

  /** Because the pages are distinct, there is a memory that holds every frame at its page. */
  lemma FramesHaveMemory(frames: array2<byte>, pages: seq<u64>) returns (memory: u64 -> byte)
    requires PT.PagesOk(pages) && Distinct(pages) && frames.Length1 == PAGE_SIZE && |pages| <= frames.Length0
    ensures FramesAt(memory, frames, pages)
  {
    var rows: seq<seq<byte>> := seq(|pages|, k requires 0 <= k < |pages| reads frames =>
                                      seq(4096, o requires 0 <= o < 4096 reads frames => frames[k, o]));
    memory := (a: u64) =>
      var k := IndexOf(pages, a - a % 4096, 0);
      if k < |rows| && |rows[k]| == 4096 then rows[k][a % 4096] else 0;
    forall k, o | 0 <= k < |pages| && 0 <= o < 4096
      ensures memory(pages[k] + o) == frames[k, o]
    {
      PageAndOffset(pages[k], o);
      IndexFound(pages, k, 0);
      assert rows[k][o] == frames[k, o];
    }
  }

  lemma PageAndOffset(page: nat, o: nat)
    requires page % 4096 == 0 && o < 4096
    ensures (page + o) % 4096 == o && page + o - (page + o) % 4096 == page
  {
  }

  function IndexOf(pages: seq<u64>, page: u64, i: nat): (k: nat)
    requires i <= |pages|
    decreases |pages| - i
  {
    if i == |pages| || pages[i] == page then i else IndexOf(pages, page, i + 1)
  }

  lemma {:induction false} IndexFound(pages: seq<u64>, k: nat, i: nat)
    requires Distinct(pages) && i <= k < |pages|
    ensures IndexOf(pages, pages[k], i) == k
    decreases k - i
  {
    if i < k {
      IndexFound(pages, k, i + 1);
    }
  }

  /** From the loader to the program: once the pages handed out by the allocator hold the loaded image, and are mapped
      together with a further page as the stack, the program reads at every address of its image the byte that the last
      loadable header covering the address puts there, can write exactly the pages of its writable segments and can
      execute exactly the others. */
  lemma LoadedProgramRuns(file: seq<byte>, p: Program, frames: array2<byte>, memory: u64 -> byte,
                          l: PM.Layout, s: PM.State, from: nat, pages: seq<u64>, stack: u64,
                          at: PT.Addresses, user: seq<u64>, va: u64)
    requires |file| < TWO_32 && LoadSpec(file) == Some(p) && Holds(frames, p.image)
    requires PM.LayoutOk(l) && PM.Owned(l, s) && l.ramBase + l.ramSize <= PT.PA_LIMIT
    requires from + p.pageCount < |s.held| && pages == HeldPages(l, s.held, from, p.pageCount)
    requires stack == PM.PageAddress(l, s.held[from + p.pageCount])
    requires PT.PagesOk(pages) && FramesAt(memory, frames, pages)
    requires PT.AddressesOk(at) && |user| == 512 && p.base <= va < p.base + |p.image| && va < PT.VA_LIMIT
    ensures stack < PT.PA_LIMIT
    ensures var ps := HeadersOf(file);
      var m := WalkProgram(p, at, user, pages, stack, va);
      && m.Some? && PT.El0CanRead(m.value.attrs) && memory(m.value.pa) == ByteFor(file, ps, va)
      && PT.El0CanWrite(m.value.attrs) == PageWritable(ps, p.base, (va - p.base) / 4096)
      && PT.El0CanExecute(m.value.attrs) == !PageWritable(ps, p.base, (va - p.base) / 4096)
  {
    hide LoadSpec, HeadersOf, PT.Walk, PT.Built, PT.MapProgram, ByteFor, PageWritable, EntryCovered, WalkProgram,
         PT.El0CanRead, PT.El0CanWrite, PT.El0CanExecute, PT.El1CanExecute, PT.UserAttrs, PM.LayoutOk, PM.Owned,
         HeldPages;
    HeldInRam(l, s, from + p.pageCount);
    LoadedImage(file);
    ImageInPlace(p, frames, memory, pages);
    ProgramSeesItsSegments(file, p, at, user, pages, stack, memory, va);
  }

  lemma ImageInPlace(p: Program, frames: array2<byte>, memory: u64 -> byte, pages: seq<u64>)
    requires PT.PagesOk(pages) && FramesAt(memory, frames, pages) && Holds(frames, p.image)
    requires |p.image| == |pages| * 4096
    ensures ImageInMemory(memory, pages, p.image)
  {
    forall i | 0 <= i < |p.image|
      ensures memory(pages[i / 4096] + i % 4096) == p.image[i]
    {
      assert frames[i / 4096, i % 4096] == p.image[i];
    }
  }

  lemma SameOffset(va: nat, base: nat)
    requires base % 4096 == 0 && base <= va
    ensures (va - base) % 4096 == va % 4096
  {
  }
}
