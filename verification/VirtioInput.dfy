/** The event queue of virtio-input: 32 buffers that are always with the device, save while one is being handled. */
module VirtioInput {
  import opened Bytes
  import FL = FreeList
  import VR = VirtRing
  import VQ = Virtqueue

  const QUEUE_SIZE := 32

  datatype Input = Input(ring: VR.Ring, descIndex: seq<u16>)

  /** The first buffer slot from `i` on that uses this descriptor. */
  function SlotFrom(descIndex: seq<u16>, head: u16, i: nat): (r: Option<nat>)
    requires i <= |descIndex|
    ensures r.Some? ==> i <= r.value < |descIndex| && descIndex[r.value] == head
    ensures r.None? ==> head !in descIndex[i..]
    decreases |descIndex| - i
  {
    if i == |descIndex| then None
    else if descIndex[i] == head then Some(i)
    else SlotFrom(descIndex, head, i + 1)
  }

  predicate InputOk(s: Input) {
    VR.RingOk(s.ring) && s.ring.size == QUEUE_SIZE && |s.descIndex| == QUEUE_SIZE
  }

  /** One popped element: the slot is handled and its buffer goes back to the device. */
  function HandleOne(s: Input, e: VR.UsedElem): (r: (Input, seq<nat>))
    requires InputOk(s)
    ensures InputOk(r.0) && r.0.descIndex == s.descIndex
    ensures VR.Unpopped(r.0.ring) == VR.Unpopped(s.ring)
  {
    match SlotFrom(s.descIndex, e.id % 0x1_0000, 0)
    case None => (s, [])
    case Some(slot) => (s.(ring := VR.Submit(s.ring, s.descIndex[slot])), [slot])
  }

  /** virtio_input_poll_device: the state it leaves and the slots it handled, in order. */
  function Poll(s: Input): (r: (Input, seq<nat>))
    requires InputOk(s)
    decreases VR.Unpopped(s.ring)
  {
    var (e, ring) := VR.Pop(s.ring);
    if e.None? then (s, [])
    else
      VR.UnpoppedAfterPop(s.ring);
      var (s1, slots) := HandleOne(s.(ring := ring), e.value);
      var rest := Poll(s1);
      (rest.0, slots + rest.1)
  }

  lemma PollUnfold(s: Input)
    requires InputOk(s)
    ensures var (e, ring) := VR.Pop(s.ring);
      if e.None? then Poll(s) == (s, [])
      else
        && VR.Unpopped(ring) < VR.Unpopped(s.ring)
        && var (s1, one) := HandleOne(s.(ring := ring), e.value);
           Poll(s) == (Poll(s1).0, one + Poll(s1).1)
  {
    hide VR.Unpopped, HandleOne;
    if VR.Pop(s.ring).0.Some? {
      VR.UnpoppedAfterPop(s.ring);
    }
  }

  const EVENT_SIZE := 8

  /** The descriptor of each slot hands the event buffer of that slot to the device, to be written. */
  predicate BuffersAt(descs: seq<FL.Desc>, descIndex: seq<u16>, eventAddr: seq<u64>) {
    && |descIndex| == QUEUE_SIZE == |eventAddr|
    && forall slot :: 0 <= slot < QUEUE_SIZE ==>
         descIndex[slot] < |descs| && descs[descIndex[slot]] == FL.Desc(eventAddr[slot], EVENT_SIZE, 2, 0)
  }

  /** Every descriptor belongs to exactly one slot, and all 32 chains are outstanding. */
  ghost predicate Full(s: Input, deviceIdx: u16, h: VR.History) {
    && InputOk(s) && Distinct(s.descIndex) && FL.Below(s.descIndex, QUEUE_SIZE)
    && VR.Coupled(s.ring, deviceIdx, h)
    && |h.submitted| - h.popped == QUEUE_SIZE
  }

  /** The history after every unread completion has been popped and its buffer submitted again. */
  ghost function Recycled(h: VR.History): VR.History
    requires VR.Counted(h)
    decreases |h.posted| - h.popped
  {
    if h.popped == |h.posted| || h.posted[h.popped].id >= TWO_16 then h
    else Recycled(VR.Submitted(VR.Popped(h), h.posted[h.popped].id))
  }

  /** A permutation contains every number. */
  lemma Surjective(s: seq<int>, n: nat, x: nat)
    requires Distinct(s) && FL.Below(s, n) && |s| == n && x < n
    ensures x in s
  {
    if x !in s {
      FL.FreeSmaller(s, n, x);
    }
  }

  /** A popped head is a descriptor and is no longer outstanding. */
  lemma PoppedHead(h: VR.History, size: nat)
    requires VR.Owned(h, size) && h.popped < |h.posted|
    ensures 0 <= h.posted[h.popped].id < size
    ensures VR.Counted(VR.Popped(h)) && h.posted[h.popped].id !in VR.Outstanding(VR.Popped(h))
  {
    var es := h.posted[h.popped..];
    assert h.posted[h.popped + 1..] == es[1..];
    VR.IdsTail(es);
    var a, x, b := h.submitted[h.taken..] + h.inflight, es[0].id, VR.Ids(es[1..]);
    assert VR.Outstanding(h) == a + [x] + b;
    assert VR.Outstanding(VR.Popped(h)) == a + b;
    hide VR.Outstanding, VR.Ids;
    NotTwice(a, x, b, size);
  }

  lemma NotTwice(a: seq<int>, x: int, b: seq<int>, size: nat)
    requires Distinct(a + [x] + b) && FL.Below(a + [x] + b, size)
    ensures 0 <= x < size && x !in a + b
  {
    var s := a + [x] + b;
    assert s[|a|] == x;
    assert forall i :: 0 <= i < |a| ==> a[i] == s[i];
    assert forall i :: 0 <= i < |b| ==> b[i] == s[|a| + 1 + i];
  }

  /** One turn of the poll loop on a device that follows the standard. */
  lemma HandleOneFull(s: Input, deviceIdx: u16, h: VR.History)
    requires Full(s, deviceIdx, h) && h.popped < |h.posted|
    ensures var (e, ring) := VR.Pop(s.ring);
      && e == Some(h.posted[h.popped]) && VR.RingOk(ring) && 0 <= e.value.id < QUEUE_SIZE
      && var (s1, slots) := HandleOne(s.(ring := ring), e.value);
         && |slots| == 1 && slots[0] < QUEUE_SIZE && s.descIndex[slots[0]] == e.value.id
         && Full(s1, deviceIdx, VR.Submitted(VR.Popped(h), e.value.id))
  {
    hide VR.Pop, VR.Submit, VR.Conserved, VR.Holds, VR.Outstanding, Distinct, FL.Below;
    VR.PopCoupled(s.ring, deviceIdx, h);
    PoppedHead(h, QUEUE_SIZE);
    var id := h.posted[h.popped].id;
    Surjective(s.descIndex, QUEUE_SIZE, id);
    assert s.descIndex[0..] == s.descIndex;
    VR.SubmitCoupled(VR.Pop(s.ring).1, deviceIdx, VR.Popped(h), id);
  }

  /** Polling handles every completion the device has posted, each once and in posting order, and leaves the queue
      full: all 32 buffers are with the device again. */
  lemma {:induction false} PollKeepsFull(s: Input, deviceIdx: u16, h: VR.History)
    requires Full(s, deviceIdx, h)
    ensures var (s', slots) := Poll(s);
      var h' := Recycled(h);
      && Full(s', deviceIdx, h') && h'.popped == |h'.posted| && h'.posted == h.posted && h'.taken == h.taken
      && |slots| == |h.posted| - h.popped
      && forall k :: 0 <= k < |slots| ==> slots[k] < QUEUE_SIZE && s.descIndex[slots[k]] == h.posted[h.popped + k].id
    decreases |h.posted| - h.popped
  {
    hide VR.Pop, VR.Coupled, HandleOne;
    FullCounted(s, deviceIdx, h);
    if h.popped == |h.posted| {
      NothingToPop(s, deviceIdx, h);
    } else {
      HandleOneFull(s, deviceIdx, h);
      var (e, ring) := VR.Pop(s.ring);
      var (s1, one) := HandleOne(s.(ring := ring), e.value);
      var h1 := VR.Submitted(VR.Popped(h), e.value.id);
      PollKeepsFull(s1, deviceIdx, h1);
      var rest := Poll(s1).1;
      assert Poll(s).1 == one + rest;
      forall k | 0 <= k < |one + rest|
        ensures (one + rest)[k] < QUEUE_SIZE && s.descIndex[(one + rest)[k]] == h.posted[h.popped + k].id
      {
        if k > 0 {
          assert (one + rest)[k] == rest[k - 1];
        }
      }
    }
  }

  lemma FullCounted(s: Input, deviceIdx: u16, h: VR.History)
    requires Full(s, deviceIdx, h)
    ensures VR.Counted(h)
  {
  }

  lemma NothingToPop(s: Input, deviceIdx: u16, h: VR.History)
    requires Full(s, deviceIdx, h) && h.popped == |h.posted|
    ensures VR.Pop(s.ring) == (None, s.ring)
  {
    VR.PopCoupled(s.ring, deviceIdx, h);
  }

  // ---- Whole runs ----

  /** What can happen between polls: the device takes a buffer, or completes any buffer it holds. */
  datatype InputEvent = DeviceTakes | DevicePosts(i: nat, len: u32) | DriverPolls

  /** The driver, the device's position, the history, and the buffer slots handled so far in order. */
  datatype World = World(s: Input, deviceIdx: u16, h: VR.History, handled: seq<nat>)

  ghost function WorldStep(w: World, e: InputEvent): World
    requires InputOk(w.s) && VR.Counted(w.h)
  {
    match e
    case DeviceTakes =>
      if w.h.taken == |w.h.submitted| then w
      else w.(deviceIdx := VR.Take(w.s.ring, w.deviceIdx).1, h := VR.Taken(w.h))
    case DevicePosts(i, len) =>
      if i >= |w.h.inflight| then w
      else w.(s := w.s.(ring := VR.Post(w.s.ring, VR.UsedElem(w.h.inflight[i], len))), h := VR.Posted(w.h, i, len))
    case DriverPolls =>
      var (s', slots) := Poll(w.s);
      w.(s := s', h := Recycled(w.h), handled := w.handled + slots)
  }

  /** The queue is full, and the slots handled are those of the completions popped, each once and in posting order. */
  ghost predicate Serving(w: World) {
    && Full(w.s, w.deviceIdx, w.h) && |w.handled| == w.h.popped <= |w.h.posted|
    && forall k :: 0 <= k < |w.handled| ==> w.handled[k] < QUEUE_SIZE && w.s.descIndex[w.handled[k]] == w.h.posted[k].id
  }

  lemma WorldStepServing(w: World, e: InputEvent)
    requires Serving(w)
    ensures InputOk(w.s) && VR.Counted(w.h) && Serving(WorldStep(w, e)) && WorldStep(w, e).s.descIndex == w.s.descIndex
    ensures e.DriverPolls? ==> WorldStep(w, e).h.popped == |WorldStep(w, e).h.posted| == |w.h.posted|
  {
    hide VR.Conserved, VR.Holds, VR.Outstanding, VR.Take, VR.Post, Distinct, FL.Below, Recycled, Poll;
    match e
    case DeviceTakes =>
      VR.TakeCoupled(w.s.ring, w.deviceIdx, w.h);
    case DevicePosts(i, len) =>
      if i < |w.h.inflight| {
        VR.PostCoupled(w.s.ring, w.deviceIdx, w.h, i, len);
      }
    case DriverPolls =>
      PollKeepsFull(w.s, w.deviceIdx, w.h);
      PollKeepsSlots(w.s);
  }

  lemma {:induction false} PollKeepsSlots(s: Input)
    requires InputOk(s)
    ensures Poll(s).0.descIndex == s.descIndex
    decreases VR.Unpopped(s.ring)
  {
    hide VR.Unpopped, HandleOne;
    PollUnfold(s);
    var (e, ring) := VR.Pop(s.ring);
    if e.Some? {
      PollKeepsSlots(HandleOne(s.(ring := ring), e.value).0);
    }
  }

  ghost function WorldRun(w: World, events: seq<InputEvent>): World
    requires Serving(w)
    decreases |events|
  {
    if events == [] then w
    else
      WorldStepServing(w, events[0]);
      WorldRun(WorldStep(w, events[0]), events[1..])
  }

  /** Over any interleaving of device steps and polls the queue stays full and every completion popped was handled
      once, in posting order; right after a poll that is every completion posted. */
  lemma {:induction false} RunServing(w: World, events: seq<InputEvent>)
    requires Serving(w)
    ensures var w' := WorldRun(w, events);
      && Serving(w') && w'.s.descIndex == w.s.descIndex
      && (events != [] && events[|events| - 1].DriverPolls? ==> |w'.handled| == |w'.h.posted|)
    decreases |events|
  {
    hide Serving, WorldStep;
    if events != [] {
      WorldStepServing(w, events[0]);
      ServingCounts(WorldStep(w, events[0]));
      RunServing(WorldStep(w, events[0]), events[1..]);
      if |events| > 1 {
        assert events[1..][|events| - 2] == events[|events| - 1];
      }
    }
  }

  lemma ServingCounts(w: World)
    requires Serving(w)
    ensures |w.handled| == w.h.popped
  {
  }

  /** The state that FillQueue leaves serves from then on, and the k-th buffer handled is the one that the device filled
      for its k-th completion. */
  lemma FilledServes(s: Input, events: seq<InputEvent>, descs: seq<FL.Desc>, eventAddr: seq<u64>)
    requires Full(s, 0, VR.History(s.descIndex, 0, [], [], 0)) && BuffersAt(descs, s.descIndex, eventAddr)
    ensures Serving(World(s, 0, VR.History(s.descIndex, 0, [], [], 0), []))
    ensures var w := WorldRun(World(s, 0, VR.History(s.descIndex, 0, [], [], 0), []), events);
      && Serving(w) && |w.handled| <= |w.h.posted|
      && forall k :: 0 <= k < |w.handled| ==>
           && w.handled[k] < QUEUE_SIZE && 0 <= w.h.posted[k].id < |descs|
           && descs[w.h.posted[k].id] == FL.Desc(eventAddr[w.handled[k]], EVENT_SIZE, 2, 0)
  {
    hide WorldRun, Full;
    RunServing(World(s, 0, VR.History(s.descIndex, 0, [], [], 0), []), events);
  }

  class Device {
    const queue: VQ.Queue
    const descIndex: array<u16>

    constructor (queue: VQ.Queue)
      ensures this.queue == queue && fresh(descIndex) && descIndex.Length == QUEUE_SIZE
    {
      this.queue := queue;
      descIndex := new u16[QUEUE_SIZE](_ => 0);
    }

    ghost predicate Valid()
      reads queue, queue.desc
    {
      queue.Valid() && queue.size == QUEUE_SIZE && descIndex.Length == QUEUE_SIZE && descIndex != queue.availRing
    }

    ghost function View(): Input
      reads queue, queue.availRing, queue.usedRing, descIndex
    {
      Input(queue.RingView(), descIndex[..])
    }

    /** The buffer loop of virtio_input_init_device: every descriptor gets a slot and is submitted. The branch for a
        failed allocation cannot be reached. */
    method FillQueue(eventAddr: seq<u64>)
      requires Valid() && |eventAddr| == QUEUE_SIZE
      requires queue.RingView() == VR.FreshRing(QUEUE_SIZE) && FL.Allocated(queue.TableView()) == {}
      modifies queue`freeHead, queue`numFree, queue`availIdx, queue.desc, queue.availRing, descIndex
      ensures Valid() && queue.numFree == 0
      ensures Full(View(), 0, VR.History(descIndex[..], 0, [], [], 0))
      ensures BuffersAt(queue.desc[..], descIndex[..], eventAddr)
    {
      hide FL.Walk, FL.TableOk, FL.AllocDesc, VR.Submit, VR.Coupled, VR.Outstanding, Distinct, FL.Below, FL.Allocated;
      FL.OwnershipCount(queue.TableView());
      VR.FreshFaithful(QUEUE_SIZE);
      ghost var done: seq<u16> := [];
      NoneAssigned(queue.TableView(), done);
      for slot := 0 to QUEUE_SIZE
        invariant Valid() && queue.numFree == QUEUE_SIZE - slot
        invariant |done| == slot && done == descIndex[..slot]
        invariant Assigned(queue.TableView(), done)
        invariant VR.Coupled(queue.RingView(), 0, VR.History(done, 0, [], [], 0))
        invariant forall k :: 0 <= k < slot ==> Described(queue.TableView(), done[k], eventAddr[k])
      {
        ghost var t := queue.TableView();
        FL.AllocOwnership(t);
        var d := queue.AllocDesc();
        if d < 0 {
          assert false;
        }
        AssignOne(t, queue.TableView(), done, d, queue.RingView());
        AllocKeepsDescribed(t, queue.TableView(), done, d, eventAddr);
        descIndex[slot] := d;
        queue.WriteDesc(d, FL.Desc(eventAddr[slot], 8, 2, 0));
        VR.SubmitCoupled(queue.RingView(), 0, VR.History(done, 0, [], [], 0), d);
        queue.Submit(d);
        done := done + [d];
      }
      AllAssigned(queue.TableView(), done);
      assert descIndex[..] == done;
    }

    /** virtio_input_poll_device; `slots` lists the handled buffers in order. */
    method PollDevice() returns (slots: seq<nat>)
      requires Valid()
      modifies queue`lastUsedIdx, queue`availIdx, queue.availRing
      ensures Valid() && (View(), slots) == old(Poll(View()))
      ensures queue.desc[..] == old(queue.desc[..]) && descIndex[..] == old(descIndex[..])
    {
      hide FL.TableOk, FL.Walk, VR.Unpopped, VR.Pop, Poll, HandleOne;
      slots := [];
      ghost var start := View();
      assert [] + Poll(start).1 == Poll(start).1;
      while true
        invariant Valid() && descIndex[..] == start.descIndex && InputOk(View())
        invariant Poll(start) == (Poll(View()).0, slots + Poll(View()).1)
        decreases VR.Unpopped(queue.RingView())
      {
        ghost var s := View();
        PollUnfold(s);
        var e := queue.PopUsed();
        assert View() == s.(ring := VR.Pop(s.ring).1);
        if e.None? {
          PopNone(s.ring);
          assert slots + [] == slots;
          return;
        }
        var handled := HandleElement(e.value);
        assert (slots + handled) + Poll(View()).1 == slots + (handled + Poll(View()).1);
        slots := slots + handled;
      }
    }

    /** The inner search loop for one used element. */
    method HandleElement(e: VR.UsedElem) returns (handled: seq<nat>)
      requires Valid()
      modifies queue`availIdx, queue.availRing
      ensures Valid() && (View(), handled) == old(HandleOne(View(), e))
    {
      hide FL.TableOk, FL.Walk, VR.Submit;
      var head: u16 := e.id % 0x1_0000;
      for slot := 0 to QUEUE_SIZE
        invariant SlotFrom(descIndex[..], head, 0) == SlotFrom(descIndex[..], head, slot)
      {
        if descIndex[slot] == head {
          queue.Submit(descIndex[slot]);
          return [slot];
        }
      }
      return [];
    }
  }

  /** The allocated descriptors are those assigned to slots so far, each to one slot. */
  ghost predicate Assigned(t: FL.Table, done: seq<u16>) {
    && |t.descs| == QUEUE_SIZE && Distinct(done) && FL.Below(done, QUEUE_SIZE)
    && FL.Allocated(t) == set d | d in done
  }

  predicate Described(t: FL.Table, d: u16, address: u64) {
    d < |t.descs| && t.descs[d] == FL.Desc(address, EVENT_SIZE, 2, 0)
  }

  /** Allocation writes only the descriptor it hands out. */
  lemma AllocKeepsDescribed(t: FL.Table, t': FL.Table, done: seq<u16>, d: u16, eventAddr: seq<u64>)
    requires FL.TableOk(t) && FL.AllocDesc(t) == (Some(d), t') && d !in done && |done| <= |eventAddr|
    requires forall k :: 0 <= k < |done| ==> Described(t, done[k], eventAddr[k])
    ensures forall k :: 0 <= k < |done| ==> Described(t', done[k], eventAddr[k])
  {
    hide FL.Walk;
  }

  lemma PopNone(r: VR.Ring)
    requires VR.RingOk(r) && VR.Pop(r).0.None?
    ensures VR.Pop(r).1 == r
  {
  }

  lemma NoneAssigned(t: FL.Table, done: seq<u16>)
    requires FL.Allocated(t) == {} && |t.descs| == QUEUE_SIZE && done == []
    ensures Assigned(t, done)
  {
    hide FL.Allocated;
  }

  lemma AssignOne(t: FL.Table, t': FL.Table, done: seq<u16>, d: u16, ring: VR.Ring)
    requires Assigned(t, done) && |t'.descs| == QUEUE_SIZE && d < QUEUE_SIZE
    requires d !in FL.Allocated(t) && FL.Allocated(t') == FL.Allocated(t) + {d}
    ensures Assigned(t', done + [d]) && d !in done
    ensures var h := VR.History(done, 0, [], [], 0); VR.Counted(h) && d !in VR.Outstanding(h)
  {
    hide FL.Allocated;
    assert VR.Outstanding(VR.History(done, 0, [], [], 0)) == done;
    assert forall v :: v in done + [d] <==> v in done || v == d;
  }

  lemma AllAssigned(t: FL.Table, done: seq<u16>)
    requires Assigned(t, done)
    ensures Distinct(done) && FL.Below(done, QUEUE_SIZE)
  {
  }
}
