/** The physical page allocator as a set of used pages. */
module PageModel {
  import opened Bytes

  const PAGE_SIZE := 4096

  /** Where RAM, the kernel image and the first free byte lie. */
  datatype Layout = Layout(ramBase: nat, ramSize: nat, kernelStart: nat, kernelEnd: nat, firstFree: nat)

  predicate Aligned(v: nat) {
    v % 4096 == 0
  }

  function AlignUp(v: nat): (r: nat)
    ensures v <= r < v + PAGE_SIZE
  {
    (v + 4095) - (v + 4095) % 4096
  }

  function AlignDown(v: nat): (r: nat)
    ensures v - PAGE_SIZE < r <= v
  {
    v - v % 4096
  }

  lemma Rounded(v: nat)
    ensures Aligned(AlignUp(v)) && Aligned(AlignDown(v))
  {
  }

  function PageCount(l: Layout): nat {
    l.ramSize / 4096
  }

  function BitmapStart(l: Layout): nat {
    AlignUp(l.firstFree)
  }

  function BitmapBytes(l: Layout): nat {
    AlignUp((PageCount(l) + 7) / 8)
  }

  function BitmapEnd(l: Layout): nat {
    BitmapStart(l) + BitmapBytes(l)
  }

  /** RAM is made of whole pages and holds the kernel and the bitmap; no address wraps. */
  predicate LayoutOk(l: Layout) {
    && 0 < l.ramBase && Aligned(l.ramBase) && Aligned(l.ramSize) && l.ramBase + l.ramSize < TWO_64
    && l.ramBase <= l.kernelStart && l.kernelEnd <= l.ramBase + l.ramSize
    && l.ramBase <= l.firstFree && BitmapEnd(l) <= l.ramBase + l.ramSize
  }

  function PageAddress(l: Layout, page: nat): nat {
    l.ramBase + page * 4096
  }

  /** Some byte of the page lies in [start, end). */
  predicate Touches(l: Layout, page: nat, start: nat, end: nat) {
    start < end && PageAddress(l, page) < end && start < PageAddress(l, page) + PAGE_SIZE
  }

  function PagesTouching(l: Layout, start: nat, end: nat): set<nat> {
    set page | 0 <= page < PageCount(l) && Touches(l, page, start, end)
  }

  /** What initialisation reserves: every page that the kernel image or the bitmap has a byte in. */
  function Reserved(l: Layout): set<nat> {
    PagesTouching(l, l.kernelStart, l.kernelEnd) + PagesTouching(l, BitmapStart(l), BitmapEnd(l))
  }

  /** Address b lies in page number p of RAM. */
  predicate InPage(l: Layout, p: nat, b: nat) {
    l.ramBase + p * 4096 <= b < l.ramBase + p * 4096 + 4096
  }

  /** Address b lies in the kernel image, or in the bitmap: one bit for each page of RAM, from the first page
      boundary at or above the first free byte, in whole pages. */
  predicate KernelOrBitmap(l: Layout, b: nat) {
    var bitmap := (l.firstFree + 4095) / 4096 * 4096;
    var bytes := (l.ramSize / 4096 + 7) / 8;
    || l.kernelStart <= b < l.kernelEnd
    || bitmap <= b < bitmap + (bytes + 4095) / 4096 * 4096
  }

  lemma BitmapAddresses(l: Layout)
    ensures BitmapStart(l) == (l.firstFree + 4095) / 4096 * 4096
    ensures BitmapEnd(l) == BitmapStart(l) + ((l.ramSize / 4096 + 7) / 8 + 4095) / 4096 * 4096
  {
  }

  /** A page touches a range exactly when a byte of it lies in the range. */
  lemma TouchesByte(l: Layout, p: nat, start: nat, end: nat)
    ensures Touches(l, p, start, end) <==> exists b: nat :: InPage(l, p, b) && start <= b < end
  {
    if Touches(l, p, start, end) {
      var b := Max(start, PageAddress(l, p));
      assert InPage(l, p, b);
    }
  }

  /** The reserved pages are exactly the pages of RAM with a byte of the kernel or of the bitmap. */
  lemma ReservedBytes(l: Layout, p: nat)
    ensures p in Reserved(l) <==> p < l.ramSize / 4096 && exists b: nat :: InPage(l, p, b) && KernelOrBitmap(l, b)
  {
    hide Touches, InPage, BitmapStart, BitmapEnd;
    BitmapAddresses(l);
    TouchesByte(l, p, l.kernelStart, l.kernelEnd);
    TouchesByte(l, p, BitmapStart(l), BitmapEnd(l));
    if exists b: nat :: InPage(l, p, b) && KernelOrBitmap(l, b) {
      var b: nat :| InPage(l, p, b) && KernelOrBitmap(l, b);
      assert l.kernelStart <= b < l.kernelEnd || BitmapStart(l) <= b < BitmapEnd(l);
    }
    if Touches(l, p, l.kernelStart, l.kernelEnd) {
      var b: nat :| InPage(l, p, b) && l.kernelStart <= b < l.kernelEnd;
      assert KernelOrBitmap(l, b);
    }
    if Touches(l, p, BitmapStart(l), BitmapEnd(l)) {
      var b: nat :| InPage(l, p, b) && BitmapStart(l) <= b < BitmapEnd(l);
      assert KernelOrBitmap(l, b);
    }
  }

  /** The lowest page from `i` on that is not used. */
  function LowestFree(used: set<nat>, count: nat, i: nat): (r: Option<nat>)
    requires i <= count
    ensures r.Some? ==> i <= r.value < count && r.value !in used
    ensures r.Some? ==> forall p :: i <= p < r.value ==> p in used
    ensures r.None? ==> forall p :: i <= p < count ==> p in used
    decreases count - i
  {
    if i == count then None
    else if i !in used then Some(i)
    else LowestFree(used, count, i + 1)
  }

  datatype FreeOutcome = Freed | OutOfRange | Misaligned | AlreadyFree

  /** What freeing an address does to the used pages; anything but Freed is a kernel panic. */
  function FreeSpec(l: Layout, used: set<nat>, address: nat): (r: (FreeOutcome, set<nat>)) {
    if address < l.ramBase || address >= l.ramBase + l.ramSize then (OutOfRange, used)
    else if !Aligned(address) then (Misaligned, used)
    else
      var page := (address - l.ramBase) / 4096;
      if page !in used then (AlreadyFree, used) else (Freed, used - {page})
  }

  lemma PageOfAddress(l: Layout, page: nat)
    requires LayoutOk(l)
    ensures Aligned(PageAddress(l, page)) && (PageAddress(l, page) - l.ramBase) / 4096 == page
    ensures page < PageCount(l) <==> PageAddress(l, page) < l.ramBase + l.ramSize
  {
  }

  /** Freeing succeeds exactly on the address of a used page. */
  lemma FreedIff(l: Layout, used: set<nat>, address: nat)
    requires LayoutOk(l) && forall p :: p in used ==> p < PageCount(l)
    ensures FreeSpec(l, used, address).0.Freed? <==> exists p :: p in used && address == PageAddress(l, p)
    ensures forall p :: p in used && address == PageAddress(l, p) ==> FreeSpec(l, used, address) == (Freed, used - {p})
  {
    hide LayoutOk;
    forall p | p in used && address == PageAddress(l, p)
      ensures FreeSpec(l, used, address) == (Freed, used - {p})
    {
      PageOfAddress(l, p);
    }
    if FreeSpec(l, used, address).0.Freed? {
      FreedAddress(l, address);
      var p := (address - l.ramBase) / 4096;
      assert p in used && address == PageAddress(l, p);
    }
  }

  lemma FreedAddress(l: Layout, address: nat)
    requires LayoutOk(l) && l.ramBase <= address && Aligned(address)
    ensures address == PageAddress(l, (address - l.ramBase) / 4096)
  {
  }

  // ---- Runs of allocations and frees of owned pages ----

  /** A client allocates, or frees the page it was handed as number `slot` of those it still holds. */
  datatype Op = Alloc | Free(slot: nat)

  /** The pages in use, and those handed out and not given back, oldest first. */
  datatype State = State(used: set<nat>, held: seq<nat>)

  function Remove(s: seq<nat>, i: nat): seq<nat>
    requires i < |s|
  {
    s[..i] + s[i + 1..]
  }

  function Step(l: Layout, s: State, op: Op): State {
    match op
    case Alloc =>
      (match LowestFree(s.used, PageCount(l), 0)
       case None => s
       case Some(p) => State(s.used + {p}, s.held + [p]))
    case Free(slot) =>
      if slot >= |s.held| then s
      else State(FreeSpec(l, s.used, PageAddress(l, s.held[slot])).1, Remove(s.held, slot))
  }

  function Run(l: Layout, s: State, ops: seq<Op>): State
    decreases |ops|
  {
    if ops == [] then s else Run(l, Step(l, s, ops[0]), ops[1..])
  }

  /** What one operation does to the pages in use and to those held: an allocation hands out the lowest page that
      nobody uses, if there is one; a page given back is no longer held nor used; and nothing else changes. */
  lemma StepEffect(l: Layout, s: State, op: Op)
    requires LayoutOk(l) && Owned(l, s)
    ensures var s' := Step(l, s, op);
      match op
      case Alloc =>
        && (s' == s <==> forall p: nat :: p < PageCount(l) ==> p in s.used)
        && (s' != s ==>
              && |s'.held| == |s.held| + 1 && s'.held[..|s.held|] == s.held
              && var p := s'.held[|s.held|];
                 && p < PageCount(l) && p !in s.used && s'.used == s.used + {p}
                 && forall q :: 0 <= q < p ==> q in s.used)
      case Free(slot) =>
        if slot < |s.held| then
          && s'.used == s.used - {s.held[slot]} && |s'.held| == |s.held| - 1
          && forall k :: 0 <= k < |s'.held| ==> s'.held[k] == s.held[if k < slot then k else k + 1]
        else s' == s
  {
    hide Owned, LayoutOk;
    StepOwned(l, s, op);
  }

  /** Operations one after the other. */
  lemma {:induction false} RunJoin(l: Layout, s: State, a: seq<Op>, b: seq<Op>)
    ensures Run(l, s, a + b) == Run(l, Run(l, s, a), b)
    ensures forall op :: Run(l, s, [op]) == Step(l, s, op)
    decreases |a|
  {
    forall op
      ensures Run(l, s, [op]) == Step(l, s, op)
    {
      assert [op][1..] == [];
    }
    if a == [] {
      assert a + b == b;
    } else {
      assert (a + b)[1..] == a[1..] + b;
      RunJoin(l, Step(l, s, a[0]), a[1..], b);
    }
  }

  /** Pages are reserved or held by one client once, and by nobody else. */
  ghost predicate Owned(l: Layout, s: State) {
    && Distinct(s.held)
    && (forall p :: p in s.held ==> p !in Reserved(l) && p < PageCount(l))
    && (forall p :: p in s.used <==> p in Reserved(l) || p in s.held)
  }

  lemma StepOwned(l: Layout, s: State, op: Op)
    requires LayoutOk(l) && Owned(l, s)
    ensures Owned(l, Step(l, s, op))
    ensures op.Free? && op.slot < |s.held| ==>
      FreeSpec(l, s.used, PageAddress(l, s.held[op.slot])) == (Freed, s.used - {s.held[op.slot]})
  {
    hide Owned;
    if op.Free? && op.slot < |s.held| {
      FreeOwned(l, s, op.slot);
    } else if op.Alloc? {
      AllocOwned(l, s);
    }
  }

  lemma AllocOwned(l: Layout, s: State)
    requires Owned(l, s)
    ensures Owned(l, Step(l, s, Alloc))
  {
    hide Reserved;
  }

  lemma Removed(s: seq<nat>, i: nat)
    requires Distinct(s) && i < |s|
    ensures Distinct(Remove(s, i)) && forall x: nat :: x in Remove(s, i) <==> x in s && x != s[i]
  {
    var rest := Remove(s, i);
    assert forall k :: 0 <= k < |rest| ==> rest[k] == s[if k < i then k else k + 1];
    assert forall k :: 0 <= k < |s| && k != i ==> s[k] == rest[if k < i then k else k - 1];
  }

  lemma FreeOwned(l: Layout, s: State, slot: nat)
    requires LayoutOk(l) && Owned(l, s) && slot < |s.held|
    ensures FreeSpec(l, s.used, PageAddress(l, s.held[slot])) == (Freed, s.used - {s.held[slot]})
    ensures Owned(l, State(s.used - {s.held[slot]}, Remove(s.held, slot)))
  {
    hide LayoutOk, Reserved, FreeSpec, PageAddress, Remove;
    ReservedInRam(l);
    FreedIff(l, s.used, PageAddress(l, s.held[slot]));
    Removed(s.held, slot);
  }

  lemma ReservedInRam(l: Layout)
    ensures forall p :: p in Reserved(l) ==> p < PageCount(l)
  {
  }

  /** After any run from initialisation: no page is held twice, no held page has a byte of the kernel or the bitmap,
      and the used pages are exactly the reserved and the held ones, so pages given back are all free again. */
  lemma {:induction false} RunOwned(l: Layout, s: State, ops: seq<Op>)
    requires LayoutOk(l) && Owned(l, s)
    ensures Owned(l, Run(l, s, ops))
    decreases |ops|
  {
    hide Owned, LayoutOk, Step;
    if ops != [] {
      StepOwned(l, s, ops[0]);
      RunOwned(l, Step(l, s, ops[0]), ops[1..]);
    }
  }

  /** The same from initialisation. */
  lemma EveryRun(l: Layout, ops: seq<Op>)
    requires LayoutOk(l)
    ensures Owned(l, Run(l, State(Reserved(l), []), ops))
  {
    hide LayoutOk, Reserved, Run;
    RunOwned(l, State(Reserved(l), []), ops);
  }

  /** In every run from initialisation no held page, and no page that the next allocation hands out, has a byte of the
      kernel or of the bitmap; and the pages used right after initialisation all have one. */
  lemma KernelNeverHandedOut(l: Layout, ops: seq<Op>, b: nat)
    requires LayoutOk(l) && KernelOrBitmap(l, b)
    ensures var s := Run(l, State(Reserved(l), []), ops);
      && (forall p :: p in s.held ==> !InPage(l, p, b))
      && (LowestFree(s.used, PageCount(l), 0).Some? ==> !InPage(l, LowestFree(s.used, PageCount(l), 0).value, b))
    ensures forall p :: p in Reserved(l) ==> exists c: nat :: InPage(l, p, c) && KernelOrBitmap(l, c)
  {
    hide LayoutOk, Reserved, Run, LowestFree, InPage, KernelOrBitmap;
    EveryRun(l, ops);
    var s := Run(l, State(Reserved(l), []), ops);
    forall p: nat | p < PageCount(l) && p !in Reserved(l)
      ensures !InPage(l, p, b)
    {
      ReservedBytes(l, p);
    }
    forall p | p in Reserved(l)
      ensures exists c: nat :: InPage(l, p, c) && KernelOrBitmap(l, c)
    {
      ReservedBytes(l, p);
    }
  }

  /** An instance: in 128 MiB of RAM a kernel of half a MiB has 128 pages and the bitmap one. */
  lemma ReservedExample()
    ensures forall p: nat ::
      p in Reserved(Layout(0x4000_0000, 0x800_0000, 0x4008_0000, 0x4010_0000, 0x4010_0000)) <==> 0x80 <= p <= 0x100
  {
  }

  /** The elements of a sequence. */
  function Elements(s: seq<nat>): set<nat> {
    set x | x in s
  }

  lemma {:induction false} DistinctCount(s: seq<nat>)
    requires Distinct(s)
    ensures |Elements(s)| == |s|
  {
    if s != [] {
      var init, last := s[..|s| - 1], s[|s| - 1];
      DistinctCount(init);
      assert Elements(s) == Elements(init) + {last};
    } else {
      assert Elements(s) == {};
    }
  }

  /** The counter of used pages is the number of reserved pages plus the number of pages held, and allocation fails
      exactly when together they fill RAM. */
  lemma Accounting(l: Layout, s: State)
    requires Owned(l, s)
    ensures |s.used| == |Reserved(l)| + |s.held|
    ensures LowestFree(s.used, PageCount(l), 0).None? <==> |s.used| == PageCount(l)
  {
    hide Reserved, LowestFree;
    DistinctCount(s.held);
    assert s.used == Reserved(l) + Elements(s.held);
    assert Reserved(l) !! Elements(s.held);
    ReservedInRam(l);
    FullIff(s.used, PageCount(l));
  }

  function Below(n: nat): (r: set<nat>)
    ensures |r| == n && forall x: nat :: x in r <==> x < n
  {
    if n == 0 then {} else Below(n - 1) + {n - 1}
  }

  lemma FullIff(used: set<nat>, n: nat)
    requires forall p :: p in used ==> p < n
    ensures LowestFree(used, n, 0).None? <==> |used| == n
  {
    assert used <= Below(n);
    if LowestFree(used, n, 0).None? {
      assert used == Below(n);
    } else {
      var p := LowestFree(used, n, 0).value;
      assert p in Below(n) && p !in used;
      ProperSubset(used, Below(n), p);
    }
  }

  lemma ProperSubset(a: set<nat>, b: set<nat>, x: nat)
    requires a <= b && x in b && x !in a
    ensures |a| < |b|
  {
    SubsetCount(a, b - {x});
  }

  lemma {:induction false} SubsetCount(a: set<nat>, b: set<nat>)
    requires a <= b
    ensures |a| <= |b|
  {
    if a != {} {
      var x :| x in a;
      SubsetCount(a - {x}, b - {x});
    }
  }
}
