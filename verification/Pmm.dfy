/** The physical page allocator: a bitmap of 64-bit words and a running counter. */
module Pmm {
  import opened Bytes
  import opened PageModel
  import opened Words

  predicate Test(words: seq<u64>, page: nat)
    requires page / 64 < |words|
  {
    HasBit(words[page / 64], page % 64)
  }

  /** The pages below `count` whose bit is set. */
  function Marked(words: seq<u64>, count: nat): (r: set<nat>)
    requires count <= 64 * |words|
  {
    set page | 0 <= page < count && Test(words, page)
  }

  lemma SamePlace(a: nat, b: nat)
    ensures a / 64 == b / 64 && a % 64 == b % 64 <==> a == b
  {
  }

  lemma AfterSet(words: seq<u64>, i: nat, page: nat)
    requires page / 64 < |words| && i / 64 < |words|
    ensures Test(words[i / 64 := SetIn(words[i / 64], i % 64)], page) <==> page == i || Test(words, page)
  {
    hide HasBit, WithBit, WithoutBit;
    SamePlace(page, i);
    if page / 64 == i / 64 {
      SetOne(words[i / 64], i % 64, page % 64);
    }
  }

  lemma AfterClear(words: seq<u64>, i: nat, page: nat)
    requires page / 64 < |words| && i / 64 < |words|
    ensures Test(words[i / 64 := ClearIn(words[i / 64], i % 64)], page) <==> page != i && Test(words, page)
  {
    hide HasBit, WithBit, WithoutBit;
    SamePlace(page, i);
    if page / 64 == i / 64 {
      ClearOne(words[i / 64], i % 64, page % 64);
    }
  }

  /** Setting the bit of a page adds the page to the marked ones, and nothing else. */
  lemma MarkedAfterSet(words: seq<u64>, i: nat, count: nat)
    requires i < count <= 64 * |words|
    ensures Marked(words[i / 64 := SetIn(words[i / 64], i % 64)], count) == Marked(words, count) + {i}
  {
    hide Test, SetIn, ClearIn;
    forall page | 0 <= page < count
      ensures Test(words[i / 64 := SetIn(words[i / 64], i % 64)], page) <==> page == i || Test(words, page)
    {
      AfterSet(words, i, page);
    }
  }

  lemma MarkedAfterClear(words: seq<u64>, i: nat, count: nat)
    requires i < count <= 64 * |words|
    ensures Marked(words[i / 64 := ClearIn(words[i / 64], i % 64)], count) == Marked(words, count) - {i}
  {
    hide Test, SetIn, ClearIn;
    forall page | 0 <= page < count
      ensures Test(words[i / 64 := ClearIn(words[i / 64], i % 64)], page) <==> page != i && Test(words, page)
    {
      AfterClear(words, i, page);
    }
  }

  lemma NothingMarked(words: seq<u64>, count: nat)
    requires count <= 64 * |words| && forall k :: 0 <= k < |words| ==> words[k] == 0
    ensures Marked(words, count) == {}
  {
    hide HasBit;
    forall page | 0 <= page < count
      ensures !Test(words, page)
    {
      assert words[page / 64] == 0;
      NoBits(page % 64);
    }
  }

  /** The lowest free page is the first one whose bit is clear. */
  lemma FirstClear(used: set<nat>, count: nat, i: nat)
    requires i <= count && forall p :: 0 <= p < i ==> p in used
    ensures i < count && i !in used ==> LowestFree(used, count, 0) == Some(i)
    ensures i == count ==> LowestFree(used, count, 0) == None
  {
    hide LowestFree;
  }

  /** The page that starts at a page-aligned address of RAM. */
  lemma PageAt(l: Layout, address: nat)
    requires LayoutOk(l) && l.ramBase <= address && Aligned(address)
    ensures address == PageAddress(l, (address - l.ramBase) / 4096)
    ensures address < l.ramBase + l.ramSize ==> (address - l.ramBase) / 4096 < PageCount(l)
  {
    AlignedDifference(address, l.ramBase);
    WholePages(address - l.ramBase);
    WholePages(l.ramSize);
    hide Aligned;
  }

  lemma AlignedDifference(a: nat, b: nat)
    requires Aligned(a) && Aligned(b) && b <= a
    ensures Aligned(a - b)
  {
  }

  lemma WholePages(v: nat)
    requires Aligned(v)
    ensures v / 4096 * 4096 == v
  {
  }

  lemma AlignedAbove(address: nat, v: nat)
    requires Aligned(address)
    ensures AlignDown(v) <= address <==> v < address + 4096
  {
  }

  lemma AlignedBelow(address: nat, v: nat)
    requires Aligned(address)
    ensures address < AlignUp(v) <==> address < v
  {
  }

  /** The walk over [start, end) by whole pages visits exactly the pages touching it. */
  lemma WalkTouches(l: Layout, start: nat, end: nat, page: nat)
    requires LayoutOk(l) && l.ramBase <= start < end
    ensures Touches(l, page, start, end) <==> AlignDown(start) <= PageAddress(l, page) < AlignUp(end)
  {
    hide LayoutOk, AlignDown, AlignUp, PageAddress, Aligned;
    PageOfAddress(l, page);
    AlignedAbove(PageAddress(l, page), start);
    AlignedBelow(PageAddress(l, page), end);
  }

  lemma AlignedFrom(l: Layout, start: nat, end: nat)
    requires LayoutOk(l) && l.ramBase <= start < end
    ensures l.ramBase <= AlignDown(start) < end <= AlignUp(end)
  {
  }

  /** The pages that the walk has visited when it stands at `current`. */
  function Visited(l: Layout, start: nat, current: nat): set<nat> {
    set page | 0 <= page < PageCount(l) && AlignDown(start) <= PageAddress(l, page) < current
  }

  lemma VisitOne(l: Layout, start: nat, current: nat)
    requires LayoutOk(l) && l.ramBase <= start && AlignDown(start) <= current < l.ramBase + l.ramSize
      && Aligned(current)
    requires l.ramBase <= current
    ensures (current - l.ramBase) / 4096 < PageCount(l)
    ensures Visited(l, start, current + 4096) == Visited(l, start, current) + {(current - l.ramBase) / 4096}
  {
    hide LayoutOk, AlignDown, PageCount, Aligned;
    var k := (current - l.ramBase) / 4096;
    PageAt(l, current);
    forall page | 0 <= page < PageCount(l)
      ensures PageAddress(l, page) < current + 4096 <==> PageAddress(l, page) < current || page == k
    {
    }
  }

  lemma VisitedAll(l: Layout, start: nat, end: nat)
    requires LayoutOk(l) && l.ramBase <= start < end
    ensures Visited(l, start, AlignUp(end)) == PagesTouching(l, start, end)
    ensures Visited(l, start, AlignDown(start)) == {}
  {
    hide LayoutOk, AlignDown, AlignUp, Touches, PageAddress, PageCount;
    forall page | 0 <= page < PageCount(l)
      ensures Touches(l, page, start, end) <==> AlignDown(start) <= PageAddress(l, page) < AlignUp(end)
    {
      WalkTouches(l, start, end, page);
    }
  }

  lemma BitmapFits(l: Layout)
    ensures BitmapBytes(l) % 8 == 0 && PageCount(l) <= 64 * (BitmapBytes(l) / 8)
  {
    hide PageCount;
    BytesFor(PageCount(l));
  }

  /** Enough bytes for n bits, rounded up to pages, are enough words. */
  lemma BytesFor(n: nat)
    ensures var bytes := AlignUp((n + 7) / 8);
      bytes % 8 == 0 && n <= 64 * (bytes / 8)
  {
    var b := (n + 7) / 8;
    assert n <= 8 * b;
    hide AlignUp;
    PagesOfBytes(b);
    var q := AlignUp(b) / 4096;
    assert AlignUp(b) == 8 * (512 * q);
  }

  lemma PagesOfBytes(b: nat)
    ensures b <= AlignUp(b) && AlignUp(b) % 4096 == 0
  {
  }

  class Allocator {
    const layout: Layout
    const bitmap: array<u64>
    var pageCount: nat
    var usedCount: nat
    var initialized: bool

    ghost predicate Valid()
      reads this, bitmap
    {
      && LayoutOk(layout) && bitmap.Length == BitmapBytes(layout) / 8 && PageCount(layout) <= 64 * bitmap.Length
      && (initialized ==> pageCount == PageCount(layout) && usedCount == |Pages()|)
      && (!initialized ==> usedCount == 0)
    }

    /** The pages whose bit is set. */
    ghost function Pages(): set<nat>
      requires PageCount(layout) <= 64 * bitmap.Length
      reads this, bitmap
    {
      Marked(bitmap[..], PageCount(layout))
    }

    /** The used pages as a caller of any entry point finds them: each of them initialises first. */
    ghost function Used(): set<nat>
      requires PageCount(layout) <= 64 * bitmap.Length
      reads this, bitmap
    {
      if initialized then Pages() else Reserved(layout)
    }

    /** The bitmap's words lie at the first free page; their contents are whatever was there. */
    constructor (layout: Layout)
      requires LayoutOk(layout)
      ensures Valid() && !initialized && this.layout == layout && fresh(bitmap)
    {
      BitmapFits(layout);
      this.layout := layout;
      bitmap := new u64[BitmapBytes(layout) / 8];
      pageCount, usedCount, initialized := 0, 0, false;
    }

    method TestBit(page: nat) returns (marked: bool)
      requires PageCount(layout) <= 64 * bitmap.Length && page < PageCount(layout)
      ensures marked <==> page in Pages()
    {
      hide HasBit, WithBit, WithoutBit;
      marked := HasBit(bitmap[page / 64], page % 64);
      assert marked <==> Test(bitmap[..], page);
    }

    method SetBit(page: nat)
      requires PageCount(layout) <= 64 * bitmap.Length && page < PageCount(layout)
      modifies bitmap
      ensures Pages() == old(Pages()) + {page}
    {
      hide SetIn, ClearIn, Marked;
      MarkedAfterSet(bitmap[..], page, PageCount(layout));
      ghost var words := bitmap[..];
      bitmap[page / 64] := SetIn(bitmap[page / 64], page % 64);
      assert bitmap[..] == words[page / 64 := SetIn(words[page / 64], page % 64)];
    }

    method ClearBit(page: nat)
      requires PageCount(layout) <= 64 * bitmap.Length && page < PageCount(layout)
      modifies bitmap
      ensures Pages() == old(Pages()) - {page}
    {
      hide SetIn, ClearIn, Marked;
      MarkedAfterClear(bitmap[..], page, PageCount(layout));
      ghost var words := bitmap[..];
      bitmap[page / 64] := ClearIn(bitmap[page / 64], page % 64);
      assert bitmap[..] == words[page / 64 := ClearIn(words[page / 64], page % 64)];
    }

    /** The state between the clearing of the bitmap and the end of the initialisation. */
    ghost predicate Counting()
      reads this, bitmap
    {
      && LayoutOk(layout) && PageCount(layout) <= 64 * bitmap.Length
      && usedCount == |Pages()|
    }

    /** pmm_reserve_page: counts a page only the first time. */
    method ReservePage(page: nat)
      requires Counting() && page < PageCount(layout)
      modifies this`usedCount, bitmap
      ensures Counting() && Pages() == old(Pages()) + {page}
    {
      hide Marked, LayoutOk;
      var marked := TestBit(page);
      if !marked {
        SetBit(page);
        usedCount := usedCount + 1;
      } else {
        assert old(Pages()) + {page} == old(Pages());
      }
    }

    /** One turn of pmm_reserve_range. */
    method ReservePageAt(start: nat, current: nat, ghost before: set<nat>)
      requires Counting() && layout.ramBase <= start && Aligned(current)
      requires layout.ramBase <= current < layout.ramBase + layout.ramSize && AlignDown(start) <= current
      requires Pages() == before + Visited(layout, start, current)
      modifies this`usedCount, bitmap
      ensures Counting() && Pages() == before + Visited(layout, start, current + 4096)
    {
      hide Marked, LayoutOk, Visited, AlignUp, AlignDown, PageCount, Aligned, PagesTouching;
      var page := (current - layout.ramBase) / 4096;
      VisitOne(layout, start, current);
      UnionMore(before, Visited(layout, start, current), page);
      ReservePage(page);
    }

    /** pmm_reserve_range: exactly the pages with a byte in [start, end) become used. */
    method ReserveRange(start: nat, end: nat)
      requires Counting() && layout.ramBase <= start && end <= layout.ramBase + layout.ramSize
      modifies this`usedCount, bitmap
      ensures Counting() && Pages() == old(Pages()) + PagesTouching(layout, start, end)
    {
      hide Marked, LayoutOk, Visited, AlignUp, AlignDown, PageCount, Aligned, PagesTouching;
      NothingTouches(layout, start, end);
      if end <= start {
        return;
      }
      ghost var before := Pages();
      var current, limit := AlignDown(start), AlignUp(end);
      Rounded(start);
      Rounded(end);
      AlignedFrom(layout, start, end);
      RamAligned(layout, end);
      VisitedAll(layout, start, end);
      assert before + {} == before;
      while current < limit
        invariant layout.ramBase <= AlignDown(start) <= current <= limit && Aligned(current)
        invariant Counting() && Pages() == before + Visited(layout, start, current)
      {
        StepAligned(current, limit);
        ReservePageAt(start, current, before);
        current := current + 4096;
      }
    }

    /** pmm_init. */
    method Init()
      requires Valid()
      modifies this`pageCount, this`usedCount, this`initialized, bitmap
      ensures Valid() && initialized && Pages() == old(Used())
      ensures old(initialized) ==> bitmap[..] == old(bitmap[..]) && usedCount == old(usedCount)
      ensures !old(initialized) ==> forall p: nat ::
        p in Pages() <==>
          p < layout.ramSize / 4096 && exists b: nat :: InPage(layout, p, b) && KernelOrBitmap(layout, b)
    {
      hide Marked, LayoutOk, PagesTouching, BitmapBytes, PageCount, AlignUp, InPage, KernelOrBitmap;
      if initialized {
        return;
      }
      pageCount := PageCount(layout);
      for i := 0 to bitmap.Length
        invariant forall k :: 0 <= k < i ==> bitmap[k] == 0
        invariant !initialized && usedCount == 0 && pageCount == PageCount(layout)
      {
        bitmap[i] := 0;
      }
      NothingMarked(bitmap[..], PageCount(layout));
      assert Counting() && Pages() == {};
      LayoutBounds(layout);
      ReserveRange(layout.kernelStart, layout.kernelEnd);
      ReserveRange(BitmapStart(layout), BitmapEnd(layout));
      assert Pages() == {} + PagesTouching(layout, layout.kernelStart, layout.kernelEnd)
                        + PagesTouching(layout, BitmapStart(layout), BitmapEnd(layout));
      initialized := true;
      forall p: nat
        ensures p in Pages() <==>
          p < layout.ramSize / 4096 && exists b: nat :: InPage(layout, p, b) && KernelOrBitmap(layout, b)
      {
        ReservedBytes(layout, p);
      }
    }

    /** pmm_alloc_page: the address of the lowest free page, which becomes used; 0 when there is none. */
    method AllocPage() returns (address: nat)
      requires Valid()
      modifies this`pageCount, this`usedCount, this`initialized, bitmap
      ensures Valid() && initialized
      ensures match LowestFree(old(Used()), PageCount(layout), 0)
              case None => address == 0 && Pages() == old(Used())
              case Some(p) => address == PageAddress(layout, p) && Pages() == old(Used()) + {p}
    {
      hide Marked, LowestFree, Reserved, PageCount, BitmapBytes;
      Init();
      ghost var used := Pages();
      for page := 0 to pageCount
        invariant Valid() && initialized && pageCount == PageCount(layout) && Pages() == used
        invariant forall p :: 0 <= p < page ==> p in used
      {
        var marked := TestBit(page);
        if !marked {
          FirstClear(used, pageCount, page);
          SetBit(page);
          usedCount := usedCount + 1;
          return layout.ramBase + page * 4096;
        }
      }
      FirstClear(used, pageCount, pageCount);
      return 0;
    }

    /** pmm_free_page; anything but Freed is a panic, which leaves the tables as they are. */
    method FreePage(address: nat) returns (outcome: FreeOutcome)
      requires Valid()
      modifies this`pageCount, this`usedCount, this`initialized, bitmap
      ensures Valid() && initialized
      ensures (outcome, Pages()) == FreeSpec(layout, old(Used()), address)
    {
      hide Marked, Reserved, PageCount, BitmapBytes;
      Init();
      if address < layout.ramBase || address >= layout.ramBase + layout.ramSize {
        return OutOfRange;
      }
      if !Aligned(address) {
        return Misaligned;
      }
      var page := (address - layout.ramBase) / 4096;
      PageAt(layout, address);
      var marked := TestBit(page);
      if !marked {
        return AlreadyFree;
      }
      ClearBit(page);
      usedCount := usedCount - 1;
      return Freed;
    }

    /** pmm_free_pages: the number of pages that are not used. */
    method FreePages() returns (n: nat)
      requires Valid()
      modifies this`pageCount, this`usedCount, this`initialized, bitmap
      ensures Valid() && initialized && Pages() == old(Used())
      ensures n == |Below(PageCount(layout)) - Pages()|
    {
      hide Marked, Reserved, BitmapBytes, PageCount;
      Init();
      MarkedInRange(bitmap[..], pageCount);
      SubsetCount(Pages(), Below(pageCount));
      Complement(Pages(), Below(pageCount));
      n := pageCount - usedCount;
    }
  }

  lemma MarkedInRange(words: seq<u64>, count: nat)
    requires count <= 64 * |words|
    ensures Marked(words, count) <= Below(count)
  {
    hide Test;
  }

  lemma Complement(a: set<nat>, b: set<nat>)
    requires a <= b
    ensures |b - a| == |b| - |a|
  {
    assert b == a + (b - a);
  }

  lemma UnionMore(a: set<nat>, b: set<nat>, x: nat)
    ensures (a + b) + {x} == a + (b + {x})
  {
  }

  lemma NothingTouches(l: Layout, start: nat, end: nat)
    ensures end <= start ==> PagesTouching(l, start, end) == {}
  {
  }

  lemma StepAligned(current: nat, limit: nat)
    requires Aligned(current) && Aligned(limit) && current < limit
    ensures current + 4096 <= limit && Aligned(current + 4096)
  {
  }

  lemma RamAligned(l: Layout, end: nat)
    requires LayoutOk(l) && end <= l.ramBase + l.ramSize
    ensures AlignUp(end) <= l.ramBase + l.ramSize
  {
  }

  lemma LayoutBounds(l: Layout)
    requires LayoutOk(l)
    ensures l.ramBase <= l.kernelStart && l.kernelEnd <= l.ramBase + l.ramSize
    ensures l.ramBase <= BitmapStart(l) && BitmapEnd(l) <= l.ramBase + l.ramSize
  {
  }
}
