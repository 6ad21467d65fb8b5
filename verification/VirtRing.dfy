/** The two rings of a split virtqueue as values: 16-bit indices that wrap, and what they mean over any run. */
module VirtRing {
  import opened Bytes
  import opened FreeList

  datatype UsedElem = UsedElem(id: u32, len: u32)

  /** The ring memory shared with the device, and the driver's position in the used ring. */
  datatype Ring = Ring(size: u16, availIdx: u16, availRing: seq<u16>, usedIdx: u16, usedRing: seq<UsedElem>,
                       lastUsedIdx: u16)

  predicate RingOk(r: Ring) {
    0 < r.size && |r.availRing| == r.size && |r.usedRing| == r.size
  }

  function Next16(i: u16): u16 {
    (i + 1) % 0x1_0000
  }

  /** virtqueue_submit. */
  function Submit(r: Ring, head: u16): (r': Ring)
    requires RingOk(r)
    ensures RingOk(r') && r'.size == r.size
  {
    r.(availRing := r.availRing[r.availIdx % r.size := head], availIdx := Next16(r.availIdx))
  }

  /** virtqueue_pop_used. */
  function Pop(r: Ring): (p: (Option<UsedElem>, Ring))
    requires RingOk(r)
    ensures RingOk(p.1) && p.1 == r.(lastUsedIdx := p.1.lastUsedIdx)
  {
    if r.lastUsedIdx == r.usedIdx then (None, r)
    else (Some(r.usedRing[r.lastUsedIdx % r.size]), r.(lastUsedIdx := Next16(r.lastUsedIdx)))
  }

  /** The device fetches the next available head, if there is one past its own position. */
  function Take(r: Ring, deviceIdx: u16): (p: (Option<u16>, u16))
    requires RingOk(r)
  {
    if deviceIdx == r.availIdx then (None, deviceIdx)
    else (Some(r.availRing[deviceIdx % r.size]), Next16(deviceIdx))
  }

  /** The device posts a completion. */
  function Post(r: Ring, e: UsedElem): (r': Ring)
    requires RingOk(r)
    ensures RingOk(r') && r'.size == r.size
  {
    r.(usedRing := r.usedRing[r.usedIdx % r.size := e], usedIdx := Next16(r.usedIdx))
  }

  // ---- Index arithmetic ----

  /** How many used elements the driver has not popped. */
  function Unpopped(r: Ring): nat {
    (r.usedIdx - r.lastUsedIdx) % 0x1_0000
  }

  lemma UnpoppedAfterPop(r: Ring)
    requires RingOk(r) && Pop(r).0.Some?
    ensures Unpopped(Pop(r).1) == Unpopped(r) - 1
  {
  }

  /** The ring slot that the code uses for the k-th entry ever written. */
  function Slot(k: nat, size: nat): nat
    requires 0 < size
  {
    (k % 0x1_0000) % size
  }

  lemma MultipleFar(d: int, size: nat)
    requires 0 < size
    ensures d != 0 ==> d * size >= size || d * size + size <= 0
  {
    if d > 0 {
      assert (d - 1) * size >= 0;
    } else if d < 0 {
      assert (-d - 1) * size >= 0;
    }
  }

  lemma ModUnique(a: int, size: nat, q: int, r: nat)
    requires 0 < size && a == q * size + r && r < size
    ensures a % size == r
  {
    var d := a / size - q;
    assert d * size == r - a % size;
    MultipleFar(d, size);
  }

  lemma ModDrop(k: nat, m: nat, size: nat)
    requires 0 < size && m % size == 0 && m <= k
    ensures (k - m) % size == k % size
  {
    assert k - m == (k / size - m / size) * size + k % size by {
      assert (k / size - m / size) * size == k / size * size - m / size * size;
    }
    ModUnique(k - m, size, k / size - m / size, k % size);
  }

  lemma {:induction false} SlotIsMod(k: nat, size: nat)
    requires 0 < size && 0x1_0000 % size == 0
    ensures Slot(k, size) == k % size
  {
    hide Slot;
    if k >= 0x1_0000 {
      SlotIsMod(k - 0x1_0000, size);
      SlotDrop(k, size);
      ModDrop(k, 0x1_0000, size);
    } else {
      SlotSmall(k, size);
    }
  }

  lemma SlotDrop(k: nat, size: nat)
    requires 0 < size && k >= 0x1_0000
    ensures Slot(k, size) == Slot(k - 0x1_0000, size)
  {
    assert k % 0x1_0000 == (k - 0x1_0000) % 0x1_0000;
  }

  lemma SlotSmall(k: nat, size: nat)
    requires 0 < size && k < 0x1_0000
    ensures Slot(k, size) == k % size
  {
    assert k % 0x1_0000 == k;
  }

  /** Any `size` consecutive entries fall into distinct slots. */
  ghost predicate SlotsApart(size: nat)
    requires 0 < size
  {
    forall j: nat, k: nat :: j < k < j + size ==> Slot(j, size) != Slot(k, size)
  }

  lemma ModApart(j: nat, k: nat, size: nat)
    requires 0 < size && j < k < j + size
    ensures j % size != k % size
  {
    var d := k / size - j / size;
    assert d * size == k / size * size - j / size * size;
    assert d * size + k % size - j % size == k - j;
    MultipleFar(d, size);
  }

  /** A ring keeps `size` outstanding entries apart across the 16-bit wrap exactly when its size divides 65536.
      virtqueue_init accepts every size that fits a page. */
  lemma SlotsApartIff(size: nat)
    requires 0 < size < TWO_16
    ensures SlotsApart(size) <==> 0x1_0000 % size == 0
  {
    if 0x1_0000 % size == 0 {
      forall j: nat, k: nat | j < k < j + size
        ensures Slot(j, size) != Slot(k, size)
      {
        SlotIsMod(j, size);
        SlotIsMod(k, size);
        ModApart(j, k, size);
      }
    } else {
      var r := 0x1_0000 % size;
      var j := 0x1_0000 - r;
      ModUnique(j, size, 0x1_0000 / size, 0);
      assert Slot(j, size) == 0 == Slot(0x1_0000, size);
      assert !(j < 0x1_0000 < j + size ==> Slot(j, size) != Slot(0x1_0000, size));
    }
  }

  // ---- Histories ----

  /** Everything that was ever submitted and posted, how far the device and the driver have come, and the heads
      that the device holds. */
  datatype History = History(submitted: seq<u16>, taken: nat, inflight: seq<u16>, posted: seq<UsedElem>, popped: nat)

  ghost function Ids(es: seq<UsedElem>): (ids: seq<int>)
    ensures |ids| == |es| && forall i :: 0 <= i < |es| ==> ids[i] == es[i].id
  {
    if es == [] then [] else Ids(es[..|es| - 1]) + [es[|es| - 1].id]
  }

  ghost predicate Counted(h: History) {
    h.popped <= |h.posted| && |h.posted| + |h.inflight| == h.taken <= |h.submitted|
  }

  /** The chains handed to the device and not yet handed back: still in the available ring, held by the device,
      or in the used ring. */
  ghost function Outstanding(h: History): (s: seq<int>)
    requires Counted(h)
    ensures |s| == |h.submitted| - h.popped
  {
    h.submitted[h.taken..] + h.inflight + Ids(h.posted[h.popped..])
  }

  ghost predicate Owned(h: History, size: nat) {
    Counted(h) && Distinct(Outstanding(h)) && Below(Outstanding(h), size)
  }

  /** Head numbers as plain integers. */
  function Heads(s: seq<u16>): seq<int> {
    s
  }

  /** Every posted completion is for a head that was taken, and each taken head is held or was posted. */
  ghost predicate Conserved(h: History)
    requires Counted(h)
  {
    multiset(Heads(h.submitted[..h.taken])) == multiset(Heads(h.inflight)) + multiset(Ids(h.posted))
  }

  /** The ring still holds the entries from number `from` on. */
  ghost predicate Holds<T>(ring: seq<T>, entries: seq<T>, from: nat) {
    ring != [] && forall k :: from <= k < |entries| ==> ring[k % |ring|] == entries[k]
  }

  /** Writing one more entry overwrites none that is still needed, if fewer than the ring's size are. */
  lemma RingWrite<T>(ring: seq<T>, entries: seq<T>, from: nat, x: T)
    requires Holds(ring, entries, from) && from <= |entries| < from + |ring|
    ensures Holds(ring[|entries| % |ring| := x], entries + [x], from)
  {
    var n, size := |entries|, |ring|;
    var ring', entries' := ring[n % size := x], entries + [x];
    forall k | from <= k <= n
      ensures ring'[k % size] == entries'[k]
    {
      if k < n {
        ModApart(k, n, size);
        assert entries'[k] == entries[k];
      }
    }
  }

  /** What the ring memory holds, in terms of the history. */
  ghost predicate Coupled(r: Ring, deviceIdx: u16, h: History) {
    && RingOk(r) && 0x1_0000 % r.size == 0
    && Owned(h, r.size) && Conserved(h)
    && r.availIdx == |h.submitted| % 0x1_0000 && deviceIdx == h.taken % 0x1_0000
    && r.usedIdx == |h.posted| % 0x1_0000 && r.lastUsedIdx == h.popped % 0x1_0000
    && Holds(r.availRing, h.submitted, h.taken)
    && Holds(r.usedRing, h.posted, h.popped)
  }

  /** At most `size` chains are outstanding, because their heads are distinct descriptors. */
  lemma OutstandingBound(h: History, size: nat)
    requires Owned(h, size)
    ensures |h.submitted| - h.popped <= size
  {
    Pigeonhole(Outstanding(h), size);
  }

  function Submitted(h: History, head: u16): History {
    h.(submitted := h.submitted + [head])
  }

  lemma SubmittedOwned(h: History, head: u16, size: nat)
    requires Owned(h, size) && head < size && head !in Outstanding(h) && Conserved(h)
    ensures Owned(Submitted(h, head), size) && Conserved(Submitted(h, head))
    ensures |h.submitted| - h.popped < size
  {
    var h' := Submitted(h, head);
    FreeSmaller(Outstanding(h), size, head);
    var a, rest := h.submitted[h.taken..], h.inflight + Ids(h.posted[h.popped..]);
    SubmittedOutstanding(h, head);
    hide Outstanding, Distinct, Below, Ids;
    InsertDistinct(a, head, rest, size);
    assert h'.submitted[..h.taken] == h.submitted[..h.taken];
  }

  lemma SubmittedOutstanding(h: History, head: u16)
    requires Counted(h)
    ensures var a, rest := Heads(h.submitted[h.taken..]), h.inflight + Ids(h.posted[h.popped..]);
      Outstanding(h) == a + rest && Outstanding(Submitted(h, head)) == a + [head] + rest
  {
    hide Ids;
    assert Submitted(h, head).submitted[h.taken..] == h.submitted[h.taken..] + [head];
  }

  lemma InsertDistinct(a: seq<int>, x: nat, b: seq<int>, size: nat)
    requires Distinct(a + b) && Below(a + b, size) && x < size && x !in a + b
    ensures Distinct(a + [x] + b) && Below(a + [x] + b, size)
  {
    var s, t := a + [x] + b, a + b;
    assert forall i :: 0 <= i < |a| ==> s[i] == t[i];
    assert forall i :: |a| < i < |s| ==> s[i] == t[i - 1];
    assert s[|a|] == x;
  }

  lemma Next16Of(n: nat)
    ensures Next16(n % 0x1_0000) == (n + 1) % 0x1_0000
  {
  }

  /** The entry numbers a step works on, instead of the wrapped indices. */
  lemma SubmitIs(r: Ring, n: nat, head: u16)
    requires RingOk(r) && 0x1_0000 % r.size == 0 && r.availIdx == n % 0x1_0000
    ensures Submit(r, head) == r.(availRing := r.availRing[n % r.size := head], availIdx := (n + 1) % 0x1_0000)
  {
    Next16Of(n);
    hide Next16;
    SlotIsMod(n, r.size);
  }

  lemma PostIs(r: Ring, n: nat, e: UsedElem)
    requires RingOk(r) && 0x1_0000 % r.size == 0 && r.usedIdx == n % 0x1_0000
    ensures Post(r, e) == r.(usedRing := r.usedRing[n % r.size := e], usedIdx := (n + 1) % 0x1_0000)
  {
    Next16Of(n);
    hide Next16;
    SlotIsMod(n, r.size);
  }

  lemma IndicesEqual(a: nat, b: nat)
    requires a <= b < a + 0x1_0000
    ensures a % 0x1_0000 == b % 0x1_0000 <==> a == b
  {
  }

  lemma TakeIs(r: Ring, n: nat, m: nat)
    requires RingOk(r) && 0x1_0000 % r.size == 0 && r.availIdx == m % 0x1_0000 && n <= m <= n + r.size
    ensures Take(r, n % 0x1_0000)
         == if n == m then (None, n % 0x1_0000) else (Some(r.availRing[n % r.size]), (n + 1) % 0x1_0000)
  {
    IndicesEqual(n, m);
    Next16Of(n);
    hide Next16;
    SlotIsMod(n, r.size);
  }

  lemma PopIs(r: Ring, n: nat, m: nat)
    requires RingOk(r) && 0x1_0000 % r.size == 0
    requires r.lastUsedIdx == n % 0x1_0000 && r.usedIdx == m % 0x1_0000 && n <= m <= n + r.size
    ensures Pop(r)
         == if n == m then (None, r) else (Some(r.usedRing[n % r.size]), r.(lastUsedIdx := (n + 1) % 0x1_0000))
  {
    IndicesEqual(n, m);
    Next16Of(n);
    hide Next16;
    SlotIsMod(n, r.size);
  }

  /** The driver makes a chain available whose head is not outstanding. */
  lemma SubmitCoupled(r: Ring, deviceIdx: u16, h: History, head: u16)
    requires Coupled(r, deviceIdx, h) && head < r.size && head !in Outstanding(h)
    ensures Coupled(Submit(r, head), deviceIdx, Submitted(h, head))
  {
    hide Conserved, Outstanding, Holds, Submit;
    SubmittedOwned(h, head, r.size);
    SubmitIs(r, |h.submitted|, head);
    RingWrite(r.availRing, h.submitted, h.taken, head);
  }

  function Taken(h: History): History
    requires h.taken < |h.submitted|
  {
    h.(taken := h.taken + 1, inflight := h.inflight + [h.submitted[h.taken]])
  }

  lemma TakenOutstanding(h: History)
    requires Counted(h) && h.taken < |h.submitted|
    ensures var a, b, c := h.submitted[h.taken + 1..], h.inflight, Ids(h.posted[h.popped..]);
      && Counted(Taken(h))
      && Outstanding(h) == [h.submitted[h.taken]] + a + b + c
      && Outstanding(Taken(h)) == a + b + [h.submitted[h.taken]] + c
  {
    hide Ids;
    assert h.submitted[h.taken..] == [h.submitted[h.taken]] + h.submitted[h.taken + 1..];
  }

  lemma TakenConserved(h: History)
    requires Counted(h) && Conserved(h) && h.taken < |h.submitted|
    ensures Conserved(Taken(h))
  {
    hide Ids;
    var h', x := Taken(h), h.submitted[h.taken];
    assert h'.submitted[..h'.taken] == h.submitted[..h.taken] + [x];
    assert multiset(Heads(h'.submitted[..h'.taken])) == multiset(Heads(h.submitted[..h.taken])) + multiset{x as int};
    assert multiset(Heads(h'.inflight)) == multiset(Heads(h.inflight)) + multiset{x as int};
  }

  lemma TakenOwned(h: History, size: nat)
    requires Owned(h, size) && Conserved(h) && h.taken < |h.submitted|
    ensures Owned(Taken(h), size) && Conserved(Taken(h))
  {
    hide Outstanding, Ids, Distinct, Below, Conserved;
    TakenOutstanding(h);
    TakenConserved(h);
    RotateDistinct(h.submitted[h.taken + 1..], h.inflight, Ids(h.posted[h.popped..]), h.submitted[h.taken], size);
  }

  lemma RotateDistinct(a: seq<int>, b: seq<int>, c: seq<int>, x: nat, size: nat)
    requires Distinct([x] + a + b + c) && Below([x] + a + b + c, size)
    ensures Distinct(a + b + [x] + c) && Below(a + b + [x] + c, size)
  {
    var s := [x] + a + b + c;
    var ab := a + b;
    var t := ab + c;
    assert forall i :: 0 <= i < |t| ==> t[i] == s[i + 1];
    assert s[0] == x;
    assert x !in t;
    assert Distinct(t);
    InsertDistinct(ab, x, c, size);
    assert a + b + [x] + c == ab + [x] + c;
  }

  /** The device sees exactly the heads it has not taken yet, in the order of submission, and nothing else. */
  lemma TakeCoupled(r: Ring, deviceIdx: u16, h: History)
    requires Coupled(r, deviceIdx, h)
    ensures var (head, deviceIdx') := Take(r, deviceIdx);
      if h.taken == |h.submitted| then head == None && deviceIdx' == deviceIdx
      else head == Some(h.submitted[h.taken]) && Coupled(r, deviceIdx', Taken(h))
  {
    hide Conserved, Outstanding, Take;
    OutstandingBound(h, r.size);
    TakeIs(r, h.taken, |h.submitted|);
    if h.taken < |h.submitted| {
      TakenOwned(h, r.size);
    }
  }

  function Posted(h: History, i: nat, len: u32): History
    requires i < |h.inflight|
  {
    h.(inflight := h.inflight[..i] + h.inflight[i + 1..], posted := h.posted + [UsedElem(h.inflight[i], len)])
  }

  lemma IdsAppend(es: seq<UsedElem>, e: UsedElem)
    ensures Ids(es + [e]) == Ids(es) + [e.id]
  {
    assert (es + [e])[..|es|] == es;
  }

  /** Where the completed head stood among the outstanding ones, and where it stands now. */
  lemma PostedOutstanding(h: History, i: nat, len: u32)
    requires Counted(h) && i < |h.inflight|
    ensures var h' := Posted(h, i, len);
      var a, b, c := h.submitted[h.taken..] + h.inflight[..i], h.inflight[i + 1..], Ids(h.posted[h.popped..]);
      && Counted(h') && Outstanding(h) == a + [h.inflight[i]] + b + c && Outstanding(h') == a + b + c + [h.inflight[i]]
  {
    var h', d := Posted(h, i, len), UsedElem(h.inflight[i], len);
    assert h.inflight == h.inflight[..i] + [h.inflight[i]] + h.inflight[i + 1..];
    assert h'.posted[h.popped..] == h.posted[h.popped..] + [d];
    IdsAppend(h.posted[h.popped..], d);
    hide Ids;
  }

  lemma PostedConserved(h: History, i: nat, len: u32)
    requires Counted(h) && i < |h.inflight| && Conserved(h)
    ensures Conserved(Posted(h, i, len))
  {
    var h', x := Posted(h, i, len), h.inflight[i];
    IdsAppend(h.posted, UsedElem(x, len));
    assert h.inflight == h.inflight[..i] + [x] + h.inflight[i + 1..];
    hide Ids;
    assert multiset(Heads(h.inflight)) == multiset(Heads(h'.inflight)) + multiset{x as int};
    assert multiset(Ids(h'.posted)) == multiset(Ids(h.posted)) + multiset{x as int};
  }

  lemma PostedOwned(h: History, i: nat, len: u32, size: nat)
    requires Owned(h, size) && Conserved(h) && i < |h.inflight|
    ensures Owned(Posted(h, i, len), size) && Conserved(Posted(h, i, len))
    ensures |h.posted| - h.popped < size
  {
    hide Outstanding, Ids, Distinct, Below, Conserved;
    OutstandingBound(h, size);
    PostedOutstanding(h, i, len);
    PostedConserved(h, i, len);
    MoveLast(h.submitted[h.taken..] + h.inflight[..i], h.inflight[i], h.inflight[i + 1..], Ids(h.posted[h.popped..]),
             size);
  }

  lemma MoveLast(a: seq<int>, x: nat, b: seq<int>, c: seq<int>, size: nat)
    requires Distinct(a + [x] + b + c) && Below(a + [x] + b + c, size)
    ensures Distinct(a + b + c + [x]) && Below(a + b + c + [x], size)
  {
    var s, t := a + [x] + b + c, a + b + c;
    assert forall i :: 0 <= i < |a| ==> t[i] == s[i];
    assert forall i :: |a| <= i < |t| ==> t[i] == s[i + 1];
    assert s[|a|] == x;
    assert x !in t;
    assert Distinct(t);
    InsertDistinct(t, x, [], size);
    assert t + [x] + [] == t + [x] && t + [] == t;
  }

  /** The device may complete any chain it holds, in any order. */
  lemma PostCoupled(r: Ring, deviceIdx: u16, h: History, i: nat, len: u32)
    requires Coupled(r, deviceIdx, h) && i < |h.inflight|
    ensures Coupled(Post(r, UsedElem(h.inflight[i], len)), deviceIdx, Posted(h, i, len))
  {
    hide Conserved, Outstanding, Holds, Post;
    PostedOwned(h, i, len, r.size);
    PostIs(r, |h.posted|, UsedElem(h.inflight[i], len));
    RingWrite(r.usedRing, h.posted, h.popped, UsedElem(h.inflight[i], len));
  }

  function Popped(h: History): History {
    h.(popped := h.popped + 1)
  }

  lemma PoppedOwned(h: History, size: nat)
    requires Owned(h, size) && Conserved(h) && h.popped < |h.posted|
    ensures Owned(Popped(h), size) && Conserved(Popped(h))
  {
    var es := h.posted[h.popped..];
    assert h.posted[h.popped + 1..] == es[1..];
    IdsTail(es);
    var a := h.submitted[h.taken..] + h.inflight;
    assert Outstanding(h) == a + [es[0].id] + Ids(es[1..]);
    assert Outstanding(Popped(h)) == a + Ids(es[1..]);
    hide Outstanding, Ids, Distinct, Below;
    DropMiddle(a, es[0].id, Ids(es[1..]), size);
  }

  lemma IdsTail(es: seq<UsedElem>)
    requires es != []
    ensures Ids(es) == [es[0].id] + Ids(es[1..])
  {
  }

  lemma DropMiddle(a: seq<int>, x: int, b: seq<int>, size: nat)
    requires Distinct(a + [x] + b) && Below(a + [x] + b, size)
    ensures Distinct(a + b) && Below(a + b, size)
  {
    var s, t := a + [x] + b, a + b;
    assert forall i :: 0 <= i < |a| ==> t[i] == s[i];
    assert forall i :: |a| <= i < |t| ==> t[i] == s[i + 1];
  }

  /** The driver sees exactly the completions it has not popped yet, in posting order, and nothing else. */
  lemma PopCoupled(r: Ring, deviceIdx: u16, h: History)
    requires Coupled(r, deviceIdx, h)
    ensures var (e, r') := Pop(r);
      if h.popped == |h.posted| then e == None && r' == r
      else e == Some(h.posted[h.popped]) && Coupled(r', deviceIdx, Popped(h))
  {
    hide Conserved, Outstanding, Pop;
    OutstandingBound(h, r.size);
    PopIs(r, h.popped, |h.posted|);
    if h.popped < |h.posted| {
      PoppedOwned(h, r.size);
    }
  }

  // ---- Whole runs ----

  datatype Action = DoSubmit(head: u16) | DoTake | DoPost(i: nat, len: u32) | DoPop

  /** The rings, the device's position, the history, and what device and driver have read from the rings. */
  datatype System = System(ring: Ring, deviceIdx: u16, h: History, seen: seq<u16>, got: seq<UsedElem>)

  /** The driver submits no head that is outstanding, and the device completes only what it holds. */
  ghost predicate Enabled(s: System, a: Action)
    requires Counted(s.h)
  {
    match a
    case DoSubmit(head) => head < s.ring.size && head !in Outstanding(s.h)
    case DoTake => true
    case DoPost(i, _) => i < |s.h.inflight|
    case DoPop => true
  }

  /** What every run keeps, whatever the queue size. */
  ghost predicate SystemOk(s: System) {
    RingOk(s.ring) && Counted(s.h)
  }

  ghost function Act(s: System, a: Action): (s': System)
    requires SystemOk(s) && Enabled(s, a)
    ensures SystemOk(s') && s'.ring.size == s.ring.size
  {
    match a
    case DoSubmit(head) => s.(ring := Submit(s.ring, head), h := Submitted(s.h, head))
    case DoTake =>
      var (head, deviceIdx) := Take(s.ring, s.deviceIdx);
      if head.None? then s
      else s.(deviceIdx := deviceIdx, seen := s.seen + [head.value],
              h := if s.h.taken < |s.h.submitted| then Taken(s.h) else s.h)
    case DoPost(i, len) => s.(ring := Post(s.ring, UsedElem(s.h.inflight[i], len)), h := Posted(s.h, i, len))
    case DoPop =>
      var (e, ring) := Pop(s.ring);
      if e.None? then s
      else s.(ring := ring, got := s.got + [e.value], h := if s.h.popped < |s.h.posted| then Popped(s.h) else s.h)
  }

  /** Device and driver have read from the rings exactly what was submitted and posted, once each and in order. */
  ghost predicate InOrder(s: System)
    requires SystemOk(s)
  {
    s.seen == s.h.submitted[..s.h.taken] && s.got == s.h.posted[..s.h.popped]
  }

  ghost predicate Faithful(s: System) {
    Coupled(s.ring, s.deviceIdx, s.h) && InOrder(s)
  }

  /** Every step that driver and device may take keeps them in step. */
  lemma ActFaithful(s: System, a: Action)
    requires Faithful(s) && Enabled(s, a)
    ensures Faithful(Act(s, a)) && Act(s, a).ring.size == s.ring.size
  {
    hide Conserved, Outstanding, Holds, Submit, Post, Take, Pop, Distinct, Below;
    match a
    case DoSubmit(head) =>
      SubmitCoupled(s.ring, s.deviceIdx, s.h, head);
      assert (s.h.submitted + [head])[..s.h.taken] == s.h.submitted[..s.h.taken];
    case DoTake =>
      TakeCoupled(s.ring, s.deviceIdx, s.h);
      if s.h.taken < |s.h.submitted| {
        assert s.h.submitted[..s.h.taken + 1] == s.h.submitted[..s.h.taken] + [s.h.submitted[s.h.taken]];
      }
    case DoPost(i, len) =>
      PostCoupled(s.ring, s.deviceIdx, s.h, i, len);
      assert (s.h.posted + [UsedElem(s.h.inflight[i], len)])[..s.h.popped] == s.h.posted[..s.h.popped];
    case DoPop =>
      PopCoupled(s.ring, s.deviceIdx, s.h);
      if s.h.popped < |s.h.posted| {
        assert s.h.posted[..s.h.popped + 1] == s.h.posted[..s.h.popped] + [s.h.posted[s.h.popped]];
      }
  }

  /** A run in which every action is enabled where it is taken. */
  ghost predicate EnabledRun(s: System, actions: seq<Action>)
    requires SystemOk(s)
    decreases |actions|
  {
    actions != [] ==> Enabled(s, actions[0]) && EnabledRun(Act(s, actions[0]), actions[1..])
  }

  ghost function RunRing(s: System, actions: seq<Action>): (s': System)
    requires SystemOk(s) && EnabledRun(s, actions)
    ensures SystemOk(s') && s'.ring.size == s.ring.size
    decreases |actions|
  {
    if actions == [] then s else RunRing(Act(s, actions[0]), actions[1..])
  }

  /** Ring memory as virtqueue_init leaves it: everything zero. */
  function FreshRing(size: u16): Ring
    requires 0 < size
  {
    Ring(size, 0, seq(size, _ => 0), 0, seq(size, _ => UsedElem(0, 0)), 0)
  }

  function FreshSystem(size: u16): (s: System)
    requires 0 < size
    ensures SystemOk(s) && s.ring.size == size
  {
    System(FreshRing(size), 0, History([], 0, [], [], 0), [], [])
  }

  lemma FreshFaithful(size: u16)
    requires 0 < size && 0x1_0000 % size == 0
    ensures Faithful(FreshSystem(size))
  {
  }

  /** Over any run from initialisation, however long: the device has read exactly the submitted heads and the driver
      exactly the posted completions, each once and in order, with never more than `size` chains outstanding. */
  lemma {:induction false} RunFaithful(s: System, actions: seq<Action>)
    requires Faithful(s) && EnabledRun(s, actions)
    ensures var s' := RunRing(s, actions);
      && Faithful(s') && s'.ring.size == s.ring.size
      && |s'.h.submitted| - s'.h.popped <= s'.ring.size
    decreases |actions|
  {
    hide Act, Enabled, Outstanding, Holds, Conserved;
    OutstandingBound(s.h, s.ring.size);
    if actions != [] {
      ActFaithful(s, actions[0]);
      RunFaithful(Act(s, actions[0]), actions[1..]);
    }
  }

  // ---- Sizes that do not divide 65536 ----

  lemma {:induction false} RunConcat(s: System, a: seq<Action>, b: seq<Action>)
    requires SystemOk(s) && EnabledRun(s, a) && EnabledRun(RunRing(s, a), b)
    ensures EnabledRun(s, a + b) && RunRing(s, a + b) == RunRing(RunRing(s, a), b)
    decreases |a|
  {
    hide Act, Enabled;
    if a == [] {
      assert a + b == b;
    } else {
      RunConcat(Act(s, a[0]), a[1..], b);
      assert (a + b)[1..] == a[1..] + b;
    }
  }

  const ROUND: seq<Action> := [DoSubmit(0), DoTake, DoPost(0, 0), DoPop]

  /** Everything submitted so far, n chains, is completed and popped, and no index has wrapped. */
  ghost predicate Idle(s: System, n: nat) {
    && SystemOk(s) && InOrder(s) && n < 0x1_0000
    && s.ring.availIdx == s.ring.usedIdx == s.ring.lastUsedIdx == s.deviceIdx == n
    && |s.h.submitted| == |s.h.posted| == s.h.popped == n && s.h.inflight == []
  }

  /** One chain goes all the way round. */
  lemma RoundIdle(s: System, n: nat)
    requires Idle(s, n) && n + 1 < 0x1_0000
    ensures EnabledRun(s, ROUND) && Idle(RunRing(s, ROUND), n + 1)
  {
    hide EnabledRun, RunRing;
    var s1 := Act(s, DoSubmit(0));
    var s2 := Act(s1, DoTake);
    assert s2.h.inflight == [0];
    var s3 := Act(s2, DoPost(0, 0));
    var s4 := Act(s3, DoPop);
    assert Idle(s4, n + 1);
    FourSteps(s, s1, s2, s3, s4);
  }

  lemma FourSteps(s: System, s1: System, s2: System, s3: System, s4: System)
    requires SystemOk(s) && Enabled(s, DoSubmit(0)) && s1 == Act(s, DoSubmit(0)) && s2 == Act(s1, DoTake)
    requires Enabled(s2, DoPost(0, 0)) && s3 == Act(s2, DoPost(0, 0)) && s4 == Act(s3, DoPop)
    ensures EnabledRun(s, ROUND) && RunRing(s, ROUND) == s4
  {
    hide Act, Outstanding;
    assert ROUND[1..] == [DoTake, DoPost(0, 0), DoPop];
    assert ROUND[1..][1..] == [DoPost(0, 0), DoPop];
    assert ROUND[1..][1..][1..] == [DoPop];
    assert Enabled(s1, DoTake) && Enabled(s3, DoPop);
    assert EnabledRun(s4, []) && RunRing(s4, []) == s4;
    assert EnabledRun(s3, [DoPop]) && RunRing(s3, [DoPop]) == s4;
    assert EnabledRun(s2, [DoPost(0, 0), DoPop]) && RunRing(s2, [DoPost(0, 0), DoPop]) == s4;
    assert EnabledRun(s1, [DoTake, DoPost(0, 0), DoPop]) && RunRing(s1, [DoTake, DoPost(0, 0), DoPop]) == s4;
  }

  ghost function Rounds(n: nat): seq<Action> {
    if n == 0 then [] else Rounds(n - 1) + ROUND
  }

  lemma {:induction false} RoundsIdle(s: System, n: nat)
    requires SystemOk(s) && Idle(s, 0) && n < 0x1_0000
    ensures EnabledRun(s, Rounds(n)) && Idle(RunRing(s, Rounds(n)), n)
  {
    hide Idle, RunRing, EnabledRun, ROUND;
    if n == 0 {
      NoSteps(s);
    } else {
      RoundsIdle(s, n - 1);
      var s' := RunRing(s, Rounds(n - 1));
      RoundIdle(s', n - 1);
      RunConcat(s, Rounds(n - 1), ROUND);
    }
  }

  lemma NoSteps(s: System)
    requires SystemOk(s)
    ensures EnabledRun(s, []) && RunRing(s, []) == s
  {
  }

  /** Chains with the heads 0 to n - 1 are submitted one after the other. */
  ghost function Burst(n: nat): seq<Action>
    requires n < 0x1_0000
  {
    if n == 0 then [] else Burst(n - 1) + [DoSubmit(n - 1)]
  }

  /** After j idle rounds and a burst of n chains: the device has taken none of them, and the slot of the first one
      holds what was last written to it. */
  ghost predicate Bursting(s: System, j: nat, n: nat) {
    && SystemOk(s) && s.deviceIdx == j < 0x1_0000 && s.ring.availIdx == (j + n) % 0x1_0000
    && s.h.taken == j && |s.h.submitted| == j + n && s.seen == s.h.submitted[..j] && s.h.inflight == []
    && |s.h.posted| == s.h.popped
    && (forall k :: j <= k < j + n ==> s.h.submitted[k] == k - j)
  }

  lemma BurstHeads(s: System, j: nat, n: nat)
    requires Bursting(s, j, n) && n < s.ring.size
    ensures Counted(s.h) && n !in Outstanding(s.h)
  {
    assert Ids(s.h.posted[s.h.popped..]) == [];
    var rest := s.h.submitted[j..];
    assert Outstanding(s.h) == rest;
    forall k | 0 <= k < n
      ensures rest[k] == k
    {
      assert rest[k] == s.h.submitted[j + k] == j + k - j;
    }
  }

  /** What one submission changes. */
  lemma SubmitEffect(s: System, head: u16)
    requires SystemOk(s) && Enabled(s, DoSubmit(head))
    ensures var s' := Act(s, DoSubmit(head));
      && s'.ring.availRing == s.ring.availRing[s.ring.availIdx % s.ring.size := head]
      && s'.ring.availIdx == Next16(s.ring.availIdx) && s'.h == Submitted(s.h, head)
      && s' == s.(ring := s'.ring, h := s'.h)
  {
    hide Outstanding;
  }

  lemma BurstStep(s: System, j: nat, n: nat)
    requires Bursting(s, j, n) && n < s.ring.size
    ensures Enabled(s, DoSubmit(n)) && Bursting(Act(s, DoSubmit(n)), j, n + 1)
    ensures Act(s, DoSubmit(n)).ring.availRing == s.ring.availRing[(j + n) % 0x1_0000 % s.ring.size := n]
  {
    BurstHeads(s, j, n);
    hide Outstanding, Act, Next16;
    SubmitEffect(s, n);
    NextSum(j + n);
    var before, after := s.h.submitted, s.h.submitted + [n];
    assert after[..j] == before[..j];
    assert forall k :: j <= k < j + n ==> after[k] == before[k];
  }

  lemma NextSum(k: nat)
    ensures Next16(k % 0x1_0000) == (k + 1) % 0x1_0000
  {
  }

  /** The slots of a burst that starts at a multiple of the size, just before the wrap. */
  lemma {:induction false} BurstRun(s: System, j: nat, n: nat, r: nat)
    requires SystemOk(s) && Idle(s, j) && j % s.ring.size == 0 && j + r == 0x1_0000 && 0 < r < s.ring.size && n <= r + 1
    ensures EnabledRun(s, Burst(n)) && Bursting(RunRing(s, Burst(n)), j, n)
    ensures n > 0 ==> RunRing(s, Burst(n)).ring.availRing[0] == if n <= r then 0 else r
  {
    hide RunRing, EnabledRun, Act, Idle, Bursting;
    if n == 0 {
      NoSteps(s);
      IdleIsBurst(s, j);
    } else {
      BurstRun(s, j, n - 1, r);
      var s' := RunRing(s, Burst(n - 1));
      BurstStep(s', j, n - 1);
      BurstSlot(j, n - 1, r, s.ring.size);
      OneStep(s', DoSubmit(n - 1));
      RunConcat(s, Burst(n - 1), [DoSubmit(n - 1)]);
    }
  }

  lemma OneStep(s: System, a: Action)
    requires SystemOk(s) && Enabled(s, a)
    ensures EnabledRun(s, [a]) && RunRing(s, [a]) == Act(s, a)
  {
    hide Act, Enabled;
    assert [a][1..] == [];
    NoSteps(Act(s, a));
  }

  lemma IdleIsBurst(s: System, j: nat)
    requires Idle(s, j)
    ensures Bursting(s, j, 0)
  {
  }

  lemma BurstSlot(j: nat, k: nat, r: nat, size: nat)
    requires 0 < size && j % size == 0 && j + r == 0x1_0000 && 0 < r < size && k <= r
    ensures (j + k) % 0x1_0000 % size == if k < r then k else 0
  {
    if k < r {
      assert (j + k) % 0x1_0000 == j + k;
      ModUnique(j + k, size, j / size, k);
    } else {
      assert (j + k) % 0x1_0000 == 0;
    }
  }

  /** The run that goes wrong: rounds up to the last multiple of the size before the wrap, a burst that fills the ring
      up to and past the wrap, and one look by the device. */
  lemma WrapBreaks(size: u16) returns (actions: seq<Action>)
    requires 0 < size && 0x1_0000 % size != 0
    ensures EnabledRun(FreshSystem(size), actions) && !InOrder(RunRing(FreshSystem(size), actions))
  {
    hide RunRing, EnabledRun, Act, Idle, Bursting, InOrder;
    var s0 := FreshSystem(size);
    var r := 0x1_0000 % size;
    var j := 0x1_0000 - r;
    LastMultiple(size);
    FreshIdle(size);
    RoundsIdle(s0, j);
    var s1 := RunRing(s0, Rounds(j));
    BurstRun(s1, j, r + 1, r);
    var s2 := RunRing(s1, Burst(r + 1));
    RunConcat(s0, Rounds(j), Burst(r + 1));
    WrongHead(s2, j, r);
    OneStep(s2, DoTake);
    RunConcat(s0, Rounds(j) + Burst(r + 1), [DoTake]);
    actions := Rounds(j) + Burst(r + 1) + [DoTake];
  }

  lemma LastMultiple(size: nat)
    requires 0 < size < 0x1_0000
    ensures var r := 0x1_0000 % size; r < size && (0x1_0000 - r) % size == 0 && 1 < 0x1_0000 - r
  {
    var q, r := 0x1_0000 / size, 0x1_0000 % size;
    assert 0x1_0000 == q * size + r;
    assert q >= 1;
    ModUnique(0x1_0000 - r, size, q, 0);
    assert q * size >= size;
  }

  lemma FreshIdle(size: u16)
    requires 0 < size
    ensures Idle(FreshSystem(size), 0)
  {
  }

  /** The device looks for the head 0 and finds the head r. */
  lemma WrongHead(s: System, j: nat, r: nat)
    requires Bursting(s, j, r + 1) && j + r == 0x1_0000 && 0 < r && 1 < j && j % s.ring.size == 0
      && s.ring.availRing[0] == r
    ensures Enabled(s, DoTake) && !InOrder(Act(s, DoTake))
  {
    var s' := Act(s, DoTake);
    assert s.ring.availIdx == 1;
    assert s'.h.submitted[j] == 0 && s'.h.taken == j + 1;
    assert s'.seen[j] == r && s'.h.submitted[..j + 1][j] == 0;
  }

  /** Runs from initialisation deliver every head and completion once and in order, whatever driver and device do,
      exactly when the queue size divides 65536. */
  lemma DeliveryIff(size: u16)
    requires 0 < size
    ensures (forall actions :: EnabledRun(FreshSystem(size), actions) ==> InOrder(RunRing(FreshSystem(size), actions)))
       <==> 0x1_0000 % size == 0
  {
    hide RunRing, EnabledRun, InOrder, FreshSystem;
    if 0x1_0000 % size == 0 {
      forall actions | EnabledRun(FreshSystem(size), actions)
        ensures InOrder(RunRing(FreshSystem(size), actions))
      {
        FreshFaithful(size);
        RunFaithful(FreshSystem(size), actions);
      }
    } else {
      var actions := WrapBreaks(size);
    }
  }
}
