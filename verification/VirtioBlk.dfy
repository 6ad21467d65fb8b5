/** The block request protocol of virtio-blk: one synchronous header-data-status chain at a time on a queue of 8. */
module VirtioBlk {
  import opened Bytes
  import FL = FreeList
  import VR = VirtRing
  import VQ = Virtqueue

  const QUEUE_SIZE := 8
  const KIND_IN: u32 := 0
  const F_NEXT: u16 := 1
  const F_WRITE: u16 := 2

  /** What a caller asks for: the transfer direction, the sectors, and where the data goes. */
  datatype Request = Request(kind: u32, start: u64, count: u64, buffer: u64)

  /** Whether the device was initialised, its capacity, and where the driver keeps the request header and the status
      byte. */
  datatype Config = Config(available: bool, capacity: u64, headerAddr: u64, statusAddr: u64)

  /** The request header in memory: the transfer type, a reserved word and the first sector. */
  datatype RequestHeader = RequestHeader(kind: u32, reserved: u32, sector: u64)

  datatype Blk = Blk(table: FL.Table, ring: VR.Ring, busy: bool, done: bool, usedLen: u32,
                     header: u16, data: u16, status: u16, request: Request, sent: RequestHeader)

  /** The byte count in 64-bit arithmetic. */
  function ByteCount(count: u64): u64 {
    count * 512 % 0x1_0000_0000_0000_0000
  }

  predicate Accepts(cfg: Config, q: Request) {
    && q.buffer != 0 && q.count != 0 && cfg.available
    && q.start < cfg.capacity && q.count <= cfg.capacity - q.start
    && ByteCount(q.count) / 512 == q.count
  }

  /** The guards accept exactly the non-empty transfers inside an initialised device whose byte count fits 64 bits. */
  lemma AcceptsIff(cfg: Config, q: Request)
    ensures Accepts(cfg, q)
       <==> cfg.available && q.buffer != 0 && 0 < q.count && q.start + q.count <= cfg.capacity && q.count * 512 < TWO_64
  {
  }

  /** The three descriptors of a request (VirtIO 1.1, section 5.2.6): a header that the device reads, the data, and a
      status byte that the device writes. */
  function HeaderDesc(cfg: Config, data: u16): FL.Desc {
    FL.Desc(cfg.headerAddr, 16, F_NEXT, data)
  }

  function DataDesc(q: Request, status: u16): FL.Desc {
    FL.Desc(q.buffer, ByteCount(q.count) % 0x1_0000_0000, if q.kind == KIND_IN then F_NEXT + F_WRITE
      else F_NEXT, status)
  }

  function StatusDesc(cfg: Config): FL.Desc {
    FL.Desc(cfg.statusAddr, 1, F_WRITE, 0)
  }

  /** The length given to the device is the length of the transfer exactly below 2^23 sectors: the code casts the
      byte count to 32 bits. */
  lemma DataLengthIff(cfg: Config, q: Request, status: u16)
    requires Accepts(cfg, q)
    ensures DataDesc(q, status).len == q.count * 512 <==> q.count < 0x80_0000
  {
  }

  /** An instance: of 2^23 sectors, which a device may well have, the device is asked for no byte at all. */
  lemma LengthVanishes()
    ensures var cfg, q := Config(true, 0x100_0000, 0x4100_0000, 0x4100_0010),
      Request(KIND_IN, 0, 0x80_0000, 0x4200_0000);
      Accepts(cfg, q) && DataDesc(q, 0).len == 0
  {
  }

  ghost predicate ChainWritten(cfg: Config, b: Blk) {
    var descs := b.table.descs;
    && b.header < |descs| && b.data < |descs| && b.status < |descs|
    && b.header != b.data && b.header != b.status && b.data != b.status
    && descs[b.header] == HeaderDesc(cfg, b.data)
    && descs[b.data] == DataDesc(b.request, b.status)
    && descs[b.status] == StatusDesc(cfg)
    && b.sent == RequestHeader(b.request.kind, 0, b.request.start)
  }

  /** The driver owns one complete chain while a request is pending, and no descriptor at all otherwise. */
  ghost predicate DriverInv(cfg: Config, b: Blk) {
    && FL.TableOk(b.table) && |b.table.descs| == QUEUE_SIZE
    && VR.RingOk(b.ring) && b.ring.size == QUEUE_SIZE
    && (b.busy ==> ChainWritten(cfg, b) && FL.Allocated(b.table) == {b.header, b.data, b.status})
    && (!b.busy ==> FL.Allocated(b.table) == {})
  }

  // ---- What the device reads ----

  predicate HasNext(d: FL.Desc) {
    d.flags % 2 == 1
  }

  /** The device may write the buffer; otherwise it may only read it. */
  predicate DeviceWritable(d: FL.Desc) {
    d.flags / 2 % 2 == 1
  }

  /** The descriptors that a device finds from `head` on by following the next links (VirtIO 1.1, section 2.6.5). */
  function DeviceChain(descs: seq<FL.Desc>, head: nat, limit: nat): seq<FL.Desc>
    decreases limit
  {
    if limit == 0 || head >= |descs| then []
    else [descs[head]] + if HasNext(descs[head]) then DeviceChain(descs, descs[head].next, limit - 1) else []
  }

  /** While a request is pending the device finds exactly its three buffers behind the submitted head: the 16-byte
      header to read, which holds the type and the first sector; the data, to write for a read request, which has
      type 0, and to read for any other; and one status byte to write. Every buffer it may only read comes before
      every buffer it may write. */
  lemma DeviceSeesRequest(cfg: Config, b: Blk)
    requires DriverInv(cfg, b) && b.busy
    ensures var chain := DeviceChain(b.table.descs, b.header, QUEUE_SIZE);
      && |chain| == 3
      && chain[0].addr == cfg.headerAddr && chain[0].len == 16 && !DeviceWritable(chain[0])
      && b.sent == RequestHeader(b.request.kind, 0, b.request.start)
      && chain[1].addr == b.request.buffer && chain[1].len == b.request.count * 512 % 0x1_0000_0000
      && (DeviceWritable(chain[1]) <==> b.request.kind == 0)
      && chain[2].addr == cfg.statusAddr && chain[2].len == 1 && DeviceWritable(chain[2])
      && forall i, j :: 0 <= i < j < 3 && DeviceWritable(chain[i]) ==> DeviceWritable(chain[j])
  {
    hide FL.TableOk, FL.Allocated, VR.RingOk;
    var descs := b.table.descs;
    assert DeviceChain(descs, b.status, 6) == [descs[b.status]];
    assert DeviceChain(descs, b.data, 7) == [descs[b.data]] + DeviceChain(descs, b.status, 6);
    assert DeviceChain(descs, b.header, 8) == [descs[b.header]] + DeviceChain(descs, b.data, 7);
    LowWord(b.request.count * 512);
  }

  lemma LowWord(n: nat)
    ensures n % 0x1_0000_0000_0000_0000 % 0x1_0000_0000 == n % 0x1_0000_0000
  {
    var q, r := n / 0x1_0000_0000_0000_0000, n % 0x1_0000_0000_0000_0000;
    assert n == 0x1_0000_0000 * (0x1_0000_0000 * q) + r;
  }

  /** With all descriptors free, three allocations succeed: the failure branch of the transfer cannot be reached. */
  lemma AllocThree(t: FL.Table)
    requires FL.TableOk(t) && |t.descs| == QUEUE_SIZE && FL.Allocated(t) == {}
    ensures t.numFree == QUEUE_SIZE && t.head < QUEUE_SIZE
    ensures var (h, t1) := FL.AllocDesc(t);
      && h.Some? && FL.TableOk(t1) && |t1.descs| == QUEUE_SIZE && t1.numFree == 7 && t1.head < QUEUE_SIZE
      && var (d, t2) := FL.AllocDesc(t1);
         && d.Some? && FL.TableOk(t2) && |t2.descs| == QUEUE_SIZE && t2.numFree == 6 && t2.head < QUEUE_SIZE
         && var (s, t3) := FL.AllocDesc(t2);
            && s.Some? && FL.TableOk(t3) && |t3.descs| == QUEUE_SIZE
            && h.value < QUEUE_SIZE && d.value < QUEUE_SIZE && s.value < QUEUE_SIZE
            && h.value != d.value && h.value != s.value && d.value != s.value
            && FL.Allocated(t3) == {h.value, d.value, s.value}
  {
    hide FL.Walk, FL.TableOk, FL.Allocated;
    FL.OwnershipCount(t);
    FL.AllocOwnership(t);
    var t1 := FL.AllocDesc(t).1;
    FL.AllocOwnership(t1);
    var t2 := FL.AllocDesc(t1).1;
    FL.AllocOwnership(t2);
  }

  /** The three allocations of a transfer. */
  function ThreeDescs(t: FL.Table): (r: (u16, u16, u16, FL.Table))
    requires FL.TableOk(t) && |t.descs| == QUEUE_SIZE && FL.Allocated(t) == {}
    ensures r.0 == t.head && r.0 < QUEUE_SIZE && r.1 < QUEUE_SIZE && r.2 < QUEUE_SIZE
    ensures r.0 != r.1 && r.0 != r.2 && r.1 != r.2
    ensures FL.TableOk(r.3) && |r.3.descs| == QUEUE_SIZE && FL.Allocated(r.3) == {r.0, r.1, r.2}
  {
    AllocThree(t);
    var (h, t1) := FL.AllocDesc(t);
    var (d, t2) := FL.AllocDesc(t1);
    var (s, t3) := FL.AllocDesc(t2);
    (h.value, d.value, s.value, t3)
  }

  function LinkChain(cfg: Config, t: FL.Table, q: Request, h: u16, d: u16, s: u16): FL.Table
    requires h < |t.descs| && d < |t.descs| && s < |t.descs|
  {
    t.(descs := t.descs[h := HeaderDesc(cfg, d)][d := DataDesc(q, s)][s := StatusDesc(cfg)])
  }

  /** The locked part of virtio_blk_transfer: None when it refuses, otherwise the state with the chain submitted. */
  function Begin(cfg: Config, b: Blk, q: Request): (r: Option<Blk>)
    requires DriverInv(cfg, b)
  {
    if !Accepts(cfg, q) || b.busy then None
    else
      var (h, d, s, t) := ThreeDescs(b.table);
      Some(Blk(LinkChain(cfg, t, q, h, d, s), VR.Submit(b.ring, h), true, false, 0, h, d, s, q,
               RequestHeader(q.kind, 0, q.start)))
  }

  lemma LinkChainKeeps(cfg: Config, t: FL.Table, q: Request, h: u16, d: u16, s: u16)
    requires FL.TableOk(t) && FL.Allocated(t) == {h, d, s} && h < |t.descs| && d < |t.descs| && s < |t.descs|
    ensures var t' := LinkChain(cfg, t, q, h, d, s); FL.TableOk(t') && FL.Allocated(t') == {h, d, s}
  {
    hide FL.Walk, FL.TableOk, FL.Allocated, DataDesc;
    FL.WriteOwned(t, h, HeaderDesc(cfg, d));
    var t1 := t.(descs := t.descs[h := HeaderDesc(cfg, d)]);
    FL.WriteOwned(t1, d, DataDesc(q, s));
    var t2 := t1.(descs := t1.descs[d := DataDesc(q, s)]);
    FL.WriteOwned(t2, s, StatusDesc(cfg));
  }

  /** A transfer starts exactly when it is accepted and none is pending; then its chain is owned, written and
      submitted. */
  lemma BeginInv(cfg: Config, b: Blk, q: Request)
    requires DriverInv(cfg, b)
    ensures var r := Begin(cfg, b, q);
      && (r.Some? <==> Accepts(cfg, q) && !b.busy)
      && (r.Some? ==> DriverInv(cfg, r.value) && r.value.busy && !r.value.done && r.value.request == q
                      && r.value.header == b.table.head && r.value.ring == VR.Submit(b.ring, r.value.header))
  {
    hide FL.Walk, FL.TableOk, FL.Allocated, VR.Submit, Accepts, DataDesc;
    hide ThreeDescs;
    if Accepts(cfg, q) && !b.busy {
      var (h, d, s, t) := ThreeDescs(b.table);
      LinkChainKeeps(cfg, t, q, h, d, s);
    }
  }

  /** Giving back the three descriptors of the pending chain frees everything. */
  lemma FreeThree(t: FL.Table, h: u16, d: u16, s: u16)
    requires FL.TableOk(t) && |t.descs| == QUEUE_SIZE && FL.Allocated(t) == {h, d, s}
    requires h != d && h != s && d != s
    ensures h < QUEUE_SIZE && d < QUEUE_SIZE && s < QUEUE_SIZE && t.numFree < QUEUE_SIZE
    ensures var t1 := FL.FreeDesc(t, h);
      && |t1.descs| == QUEUE_SIZE && t1.numFree < QUEUE_SIZE && FL.TableOk(t1) && FL.Allocated(t1) == {d, s}
      && var t2 := FL.FreeDesc(t1, d);
         && |t2.descs| == QUEUE_SIZE && t2.numFree < QUEUE_SIZE && FL.TableOk(t2) && FL.Allocated(t2) == {s}
         && var t3 := FL.FreeDesc(t2, s);
            FL.TableOk(t3) && |t3.descs| == QUEUE_SIZE && FL.Allocated(t3) == {}
  {
    assert h in FL.Allocated(t) && d in FL.Allocated(t) && s in FL.Allocated(t);
    hide FL.Walk, FL.TableOk, FL.Allocated;
    FL.FreeOwnership(t, h);
    var t1 := FL.FreeDesc(t, h);
    FL.FreeOwnership(t1, d);
    var t2 := FL.FreeDesc(t1, d);
    FL.FreeOwnership(t2, s);
  }

  /** virtio_blk_free_pending_chain. */
  function FreeChain(cfg: Config, b: Blk): (t: FL.Table)
    requires DriverInv(cfg, b) && b.busy
  {
    FreeThree(b.table, b.header, b.data, b.status);
    FL.FreeDesc(FL.FreeDesc(FL.FreeDesc(b.table, b.header), b.data), b.status)
  }

  /** One turn of the loop in virtio_blk_complete_used, for the used element `e`. */
  function CompleteOne(cfg: Config, b: Blk, e: VR.UsedElem): (b': Blk)
    requires DriverInv(cfg, b)
  {
    if !b.busy || e.id != b.header then b
    else b.(table := FreeChain(cfg, b), usedLen := e.len, done := true, busy := false)
  }

  lemma CompleteOneInv(cfg: Config, b: Blk, e: VR.UsedElem)
    requires DriverInv(cfg, b)
    ensures DriverInv(cfg, CompleteOne(cfg, b, e))
  {
    hide FL.Walk, FL.TableOk, FL.Allocated, FL.FreeDesc;
    if b.busy {
      FreeThree(b.table, b.header, b.data, b.status);
    }
  }

  /** virtio_blk_complete_used, as one step. */
  function Complete(cfg: Config, b: Blk): (b': Blk)
    requires DriverInv(cfg, b)
    decreases VR.Unpopped(b.ring)
  {
    var (e, ring) := VR.Pop(b.ring);
    if e.None? then b
    else
      CompleteOneInv(cfg, b.(ring := ring), e.value);
      VR.UnpoppedAfterPop(b.ring);
      Complete(cfg, CompleteOne(cfg, b.(ring := ring), e.value))
  }

  /** The used elements that the next completion step will pop. */
  function Pending(r: VR.Ring): seq<VR.UsedElem>
    requires VR.RingOk(r)
    decreases VR.Unpopped(r)
  {
    var (e, ring) := VR.Pop(r);
    if e.None? then [] else VR.UnpoppedAfterPop(r); [e.value] + Pending(ring)
  }

  /** The length reported by the first pending element for this head. */
  function CompletedBy(es: seq<VR.UsedElem>, head: u16): Option<u32> {
    if es == [] then None
    else if es[0].id == head then Some(es[0].len)
    else CompletedBy(es[1..], head)
  }

  /** Whatever the device has put into the used ring, a completion step pops all of it and ends the request exactly
      when one of the elements names its head; then all 8 descriptors are free. */
  lemma {:induction false} CompleteEffect(cfg: Config, b: Blk)
    requires DriverInv(cfg, b)
    ensures var b' := Complete(cfg, b);
      var len := CompletedBy(Pending(b.ring), b.header);
      && DriverInv(cfg, b')
      && b'.ring == b.ring.(lastUsedIdx := b.ring.usedIdx)
      && b' == b.(ring := b'.ring, table := b'.table, busy := b'.busy, done := b'.done, usedLen := b'.usedLen)
      && (if b.busy && len.Some? then !b'.busy && b'.done && b'.usedLen == len.value && b'.table.numFree == QUEUE_SIZE
          else b' == b.(ring := b'.ring))
    decreases VR.Unpopped(b.ring)
  {
    hide FL.Walk, FL.TableOk, FL.Allocated, FL.FreeDesc, VR.Unpopped;
    var (e, ring) := VR.Pop(b.ring);
    if e.Some? {
      var b1 := CompleteOne(cfg, b.(ring := ring), e.value);
      CompleteOneInv(cfg, b.(ring := ring), e.value);
      VR.UnpoppedAfterPop(b.ring);
      var rest := Pending(ring);
      assert Pending(b.ring) == [e.value] + rest && ([e.value] + rest)[1..] == rest;
      CompleteEffect(cfg, b1);
      if !b1.busy {
        AllFree(cfg, b1);
      }
    }
  }

  lemma AllFree(cfg: Config, b: Blk)
    requires DriverInv(cfg, b) && !b.busy
    ensures b.table.numFree == QUEUE_SIZE
  {
    hide FL.Walk;
    FL.OwnershipCount(b.table);
  }

  // ---- Runs against an arbitrary device ----

  /** What can happen: a caller starts a transfer, the device writes anything at all into its part of the queue,
      or the driver looks at the used ring (from the polling loop or from the interrupt handler). */
  datatype Event = Start(q: Request) | DeviceWrites(usedIdx: u16, usedRing: seq<VR.UsedElem>) | Look

  predicate EventOk(e: Event) {
    e.DeviceWrites? ==> |e.usedRing| == QUEUE_SIZE
  }

  function Happen(cfg: Config, b: Blk, e: Event): (b': Blk)
    requires DriverInv(cfg, b) && EventOk(e)
  {
    match e
    case Start(q) =>
      var r := Begin(cfg, b, q);
      if r.None? then b else r.value
    case DeviceWrites(usedIdx, usedRing) => b.(ring := b.ring.(usedIdx := usedIdx, usedRing := usedRing))
    case Look => Complete(cfg, b)
  }

  lemma HappenInv(cfg: Config, b: Blk, e: Event)
    requires DriverInv(cfg, b) && EventOk(e)
    ensures DriverInv(cfg, Happen(cfg, b, e))
  {
    hide FL.Walk, FL.TableOk, FL.Allocated, Begin, Complete;
    match e
    case Start(q) => BeginInv(cfg, b, q);
    case DeviceWrites(_, _) =>
    case Look => CompleteEffect(cfg, b);
  }

  function HappenAll(cfg: Config, b: Blk, events: seq<Event>): (b': Blk)
    requires DriverInv(cfg, b) && forall k :: 0 <= k < |events| ==> EventOk(events[k])
    decreases |events|
  {
    if events == [] then b
    else
      HappenInv(cfg, b, events[0]);
      HappenAll(cfg, Happen(cfg, b, events[0]), events[1..])
  }

  function FreshBlk(table: FL.Table): Blk {
    Blk(table, VR.FreshRing(QUEUE_SIZE), false, false, 0, 0, 0, 0, Request(0, 0, 0, 0), RequestHeader(0, 0, 0))
  }

  /** In every state reachable from initialisation, whatever the device writes and whenever it does: the driver holds
      exactly one header-data-status chain while it is busy and nothing otherwise, so no descriptor is ever lost. */
  lemma {:induction false} NoDescriptorLeak(cfg: Config, b: Blk, events: seq<Event>)
    requires DriverInv(cfg, b) && forall k :: 0 <= k < |events| ==> EventOk(events[k])
    ensures var b' := HappenAll(cfg, b, events);
      && DriverInv(cfg, b')
      && b'.table.numFree == if b'.busy then QUEUE_SIZE - 3 else QUEUE_SIZE
    decreases |events|
  {
    hide FL.Walk, FL.TableOk, Happen, ChainWritten;
    FL.OwnershipCount(b.table);
    if b.busy {
      ThreeDistinct(cfg, b);
    }
    if events != [] {
      HappenInv(cfg, b, events[0]);
      NoDescriptorLeak(cfg, Happen(cfg, b, events[0]), events[1..]);
    }
  }

  lemma ThreeDistinct(cfg: Config, b: Blk)
    requires DriverInv(cfg, b) && b.busy
    ensures |FL.Allocated(b.table)| == 3
  {
    hide FL.Walk, FL.TableOk, FL.Allocated;
    assert |{b.header, b.data, b.status}| == 3;
  }

  lemma FreshInv(cfg: Config, table: FL.Table)
    requires FL.TableOk(table) && |table.descs| == QUEUE_SIZE && FL.Allocated(table) == {}
    ensures DriverInv(cfg, FreshBlk(table))
  {
  }

  // ---- Runs against a device that follows the standard ----

  /** The rings agree with a history in which the pending chain, and nothing else, is outstanding. */
  ghost predicate Honest(cfg: Config, b: Blk, deviceIdx: u16, h: VR.History) {
    && DriverInv(cfg, b) && VR.Coupled(b.ring, deviceIdx, h)
    && VR.Outstanding(h) == if b.busy then [b.header as int] else []
  }

  /** A transfer hands the device one new chain. */
  lemma BeginHonest(cfg: Config, b: Blk, deviceIdx: u16, h: VR.History, q: Request)
    requires Honest(cfg, b, deviceIdx, h) && Begin(cfg, b, q).Some?
    ensures var b' := Begin(cfg, b, q).value; Honest(cfg, b', deviceIdx, VR.Submitted(h, b'.header))
  {
    hide FL.Walk, FL.TableOk, FL.Allocated, Begin, Accepts, VR.Submit, VR.Holds, VR.Conserved, VR.Outstanding,
         Distinct, FL.Below, ChainWritten;
    BeginInv(cfg, b, q);
    var b' := Begin(cfg, b, q).value;
    HeadInTable(cfg, b');
    VR.SubmitCoupled(b.ring, deviceIdx, h, b'.header);
    VR.SubmittedOutstanding(h, b'.header);
    JoinEmpty(VR.Heads(h.submitted[h.taken..]), h.inflight + VR.Ids(h.posted[h.popped..]), b'.header);
  }

  lemma HeadInTable(cfg: Config, b: Blk)
    requires DriverInv(cfg, b) && b.busy
    ensures b.header < QUEUE_SIZE
  {
  }

  lemma JoinEmpty(a: seq<int>, b: seq<int>, x: int)
    requires a + b == []
    ensures a + [x] + b == [x]
  {
    assert |a + b| == |a| + |b|;
  }

  /** The device takes the chain; the pending request stays the only one outstanding. */
  lemma TakeHonest(cfg: Config, b: Blk, deviceIdx: u16, h: VR.History)
    requires Honest(cfg, b, deviceIdx, h) && h.taken < |h.submitted|
    ensures var (head, deviceIdx') := VR.Take(b.ring, deviceIdx);
      head == Some(b.header) && b.busy && Honest(cfg, b, deviceIdx', VR.Taken(h))
  {
    hide DriverInv, VR.Take, VR.Holds, VR.Conserved, VR.Outstanding;
    VR.TakeCoupled(b.ring, deviceIdx, h);
    VR.TakenOutstanding(h);
    OnlyOne(VR.Heads(h.submitted[h.taken + 1..]), h.inflight, VR.Ids(h.posted[h.popped..]), h.submitted[h.taken]);
  }

  lemma OnlyOne(a: seq<int>, b: seq<int>, c: seq<int>, x: int)
    requires |[x] + a + b + c| <= 1
    ensures [x] + a + b + c == [x] == a + b + [x] + c == a + b + c + [x] == a + [x] + b + c
  {
    assert a == [] && b == [] && c == [];
  }

  /** The device posts the completion of the chain it holds. */
  lemma PostHonest(cfg: Config, b: Blk, deviceIdx: u16, h: VR.History, i: nat, len: u32)
    requires Honest(cfg, b, deviceIdx, h) && i < |h.inflight|
    ensures var ring := VR.Post(b.ring, VR.UsedElem(h.inflight[i], len));
      Honest(cfg, b.(ring := ring), deviceIdx, VR.Posted(h, i, len))
  {
    hide FL.TableOk, FL.Allocated, ChainWritten, VR.Post, VR.Holds, VR.Conserved, VR.Outstanding;
    VR.PostCoupled(b.ring, deviceIdx, h, i, len);
    VR.PostedOutstanding(h, i, len);
    var a, c, d := h.submitted[h.taken..] + h.inflight[..i], h.inflight[i + 1..], VR.Ids(h.posted[h.popped..]);
    assert |VR.Outstanding(h)| <= 1;
    OnlyOneMiddle(a, c, d, h.inflight[i]);
    assert ChainWritten(cfg, b.(ring := VR.Post(b.ring, VR.UsedElem(h.inflight[i], len)))) == ChainWritten(cfg, b) by {
      ChainIgnoresRing(cfg, b, VR.Post(b.ring, VR.UsedElem(h.inflight[i], len)));
    }
  }

  lemma ChainIgnoresRing(cfg: Config, b: Blk, ring: VR.Ring)
    ensures ChainWritten(cfg, b.(ring := ring)) == ChainWritten(cfg, b)
  {
  }

  lemma OnlyOneMiddle(a: seq<int>, b: seq<int>, c: seq<int>, x: int)
    requires |a + [x] + b + c| <= 1
    ensures a + [x] + b + c == [x] == a + b + c + [x]
  {
    assert a == [] && b == [] && c == [];
  }

  /** A completion step ends the pending request exactly when the device has posted it, with the length posted, and
      each request is ended once: no element is skipped. */
  lemma CompleteHonest(cfg: Config, b: Blk, deviceIdx: u16, h: VR.History)
    requires Honest(cfg, b, deviceIdx, h)
    ensures var b' := Complete(cfg, b);
      if h.popped == |h.posted| then b' == b
      else
        && b.busy && h.posted[h.popped].id == b.header && h.popped + 1 == |h.posted|
        && !b'.busy && b'.done && b'.usedLen == h.posted[h.popped].len
        && Honest(cfg, b', deviceIdx, VR.Popped(h))
  {
    hide FL.Walk, FL.TableOk, FL.Allocated, ChainWritten, VR.Pop, VR.Holds, VR.Conserved, Distinct, FL.Below, FreeChain;
    VR.PopCoupled(b.ring, deviceIdx, h);
    if h.popped < |h.posted| {
      var (e, ring) := VR.Pop(b.ring);
      PostedIsHead(h, if b.busy then [b.header as int] else []);
      ChainIgnoresRing(cfg, b, ring);
      CompleteOneInv(cfg, b.(ring := ring), e.value);
      var b1 := CompleteOne(cfg, b.(ring := ring), e.value);
      VR.UnpoppedAfterPop(b.ring);
      VR.PopCoupled(ring, deviceIdx, VR.Popped(h));
      assert Complete(cfg, b1) == b1;
    }
  }

  /** With one chain outstanding and one completion unread, the completion is that chain's. */
  lemma PostedIsHead(h: VR.History, outstanding: seq<int>)
    requires VR.Counted(h) && VR.Outstanding(h) == outstanding && |outstanding| <= 1 && h.popped < |h.posted|
    ensures outstanding == [h.posted[h.popped].id] && h.popped + 1 == |h.posted| && VR.Outstanding(VR.Popped(h)) == []
  {
    var es := h.posted[h.popped..];
    assert |VR.Outstanding(h)| == |h.submitted[h.taken..]| + |h.inflight| + |es|;
    assert es == [h.posted[h.popped]] && h.submitted[h.taken..] == [] && h.inflight == [];
  }

  /** What can happen on a device that follows the standard: it takes chains and completes those it holds. */
  datatype HonestEvent = Ask(q: Request) | DeviceTakes | DeviceCompletes(i: nat, len: u32) | Poll

  ghost function HonestStep(cfg: Config, b: Blk, deviceIdx: u16, h: VR.History,
                            e: HonestEvent): (r: (Blk, u16, VR.History))
    requires Honest(cfg, b, deviceIdx, h)
  {
    TakeBounds(cfg, b, deviceIdx, h);
    hide Honest, DriverInv, Begin, Complete, VR.Take, VR.Post;
    match e
    case Ask(q) =>
      var r := Begin(cfg, b, q);
      if r.None? then (b, deviceIdx, h) else (r.value, deviceIdx, VR.Submitted(h, r.value.header))
    case DeviceTakes =>
      if h.taken == |h.submitted| then (b, deviceIdx, h) else (b, VR.Take(b.ring, deviceIdx).1, VR.Taken(h))
    case DeviceCompletes(i, len) =>
      if i >= |h.inflight| then (b, deviceIdx, h)
      else (b.(ring := VR.Post(b.ring, VR.UsedElem(h.inflight[i], len))), deviceIdx, VR.Posted(h, i, len))
    case Poll => (Complete(cfg, b), deviceIdx, if h.popped == |h.posted| then h else VR.Popped(h))
  }

  /** A device that follows the standard stays in step with the driver. */
  lemma HonestStepKeeps(cfg: Config, b: Blk, deviceIdx: u16, h: VR.History, e: HonestEvent)
    requires Honest(cfg, b, deviceIdx, h)
    ensures var (b', d', h') := HonestStep(cfg, b, deviceIdx, h, e); Honest(cfg, b', d', h')
  {
    hide DriverInv, Begin, Complete, VR.Take, VR.Post, VR.Coupled, VR.Outstanding;
    TakeBounds(cfg, b, deviceIdx, h);
    match e
    case Ask(q) =>
      if Begin(cfg, b, q).Some? {
        BeginHonest(cfg, b, deviceIdx, h, q);
      }
    case DeviceTakes =>
      if h.taken != |h.submitted| {
        TakeHonest(cfg, b, deviceIdx, h);
      }
    case DeviceCompletes(i, len) =>
      if i < |h.inflight| {
        PostHonest(cfg, b, deviceIdx, h, i, len);
      }
    case Poll => CompleteHonest(cfg, b, deviceIdx, h);
  }

  lemma TakeBounds(cfg: Config, b: Blk, deviceIdx: u16, h: VR.History)
    requires Honest(cfg, b, deviceIdx, h)
    ensures h.taken <= |h.submitted| && h.popped <= |h.posted|
    ensures DriverInv(cfg, b) && VR.RingOk(b.ring)
  {
    hide DriverInv, VR.Conserved, VR.Holds, VR.Outstanding;
  }

  ghost function HonestRun(cfg: Config, b: Blk, deviceIdx: u16, h: VR.History,
                           events: seq<HonestEvent>): (r: (Blk, u16, VR.History))
    requires Honest(cfg, b, deviceIdx, h)
    decreases |events|
  {
    if events == [] then (b, deviceIdx, h)
    else
      HonestStepKeeps(cfg, b, deviceIdx, h, events[0]);
      var (b1, d1, h1) := HonestStep(cfg, b, deviceIdx, h, events[0]);
      HonestRun(cfg, b1, d1, h1, events[1..])
  }

  /** Over any number of transfers every accepted request is completed exactly once: the completions popped are as
      many as the requests submitted, less the one that is pending. */
  lemma {:induction false} RequestsCompleteOnce(cfg: Config, b: Blk, deviceIdx: u16, h: VR.History,
                                                events: seq<HonestEvent>)
    requires Honest(cfg, b, deviceIdx, h)
    ensures var (b', d', h') := HonestRun(cfg, b, deviceIdx, h, events);
      && Honest(cfg, b', d', h')
      && h'.popped + (if b'.busy then 1 else 0) == |h'.submitted|
    decreases |events|
  {
    hide DriverInv, HonestStep, VR.Coupled;
    if events == [] {
      HonestCount(cfg, b, deviceIdx, h);
    } else {
      HonestStepKeeps(cfg, b, deviceIdx, h, events[0]);
      var (b1, d1, h1) := HonestStep(cfg, b, deviceIdx, h, events[0]);
      RequestsCompleteOnce(cfg, b1, d1, h1, events[1..]);
    }
  }

  lemma HonestCount(cfg: Config, b: Blk, deviceIdx: u16, h: VR.History)
    requires Honest(cfg, b, deviceIdx, h)
    ensures h.popped + (if b.busy then 1 else 0) == |h.submitted|
  {
    assert |VR.Outstanding(h)| == |h.submitted| - h.popped;
  }

  lemma FreshHonest(cfg: Config, table: FL.Table)
    requires FL.TableOk(table) && |table.descs| == QUEUE_SIZE && FL.Allocated(table) == {}
    ensures Honest(cfg, FreshBlk(table), 0, VR.History([], 0, [], [], 0))
  {
    VR.FreshFaithful(QUEUE_SIZE);
  }

  /** With nothing pending everything submitted has been taken, completed and popped. */
  lemma IdleHistory(cfg: Config, b: Blk, deviceIdx: u16, h: VR.History)
    requires Honest(cfg, b, deviceIdx, h) && !b.busy
    ensures h.taken == |h.submitted| == |h.posted| == h.popped && h.inflight == []
  {
    hide DriverInv;
    assert |VR.Outstanding(h)| == |h.submitted[h.taken..]| + |h.inflight| + |h.posted[h.popped..]|;
  }

  /** An accepted request to an idle driver is submitted, and the device has not taken it yet. */
  lemma AskStep(cfg: Config, b: Blk, deviceIdx: u16, h: VR.History, q: Request)
    requires Honest(cfg, b, deviceIdx, h) && !b.busy && Accepts(cfg, q)
    ensures var (b', d', h') := HonestStep(cfg, b, deviceIdx, h, Ask(q));
      && Honest(cfg, b', d', h') && b'.busy && b'.request == q
      && h' == VR.Submitted(h, b'.header) && h'.taken < |h'.submitted| && h'.inflight == []
  {
    IdleHistory(cfg, b, deviceIdx, h);
    HonestStepKeeps(cfg, b, deviceIdx, h, Ask(q));
    hide Honest, DriverInv, Begin, Accepts, Complete, VR.Take, VR.Post;
    BeginInv(cfg, b, q) by { TakeBounds(cfg, b, deviceIdx, h); }
  }

  /** The device takes the one chain that waits for it. */
  lemma TakeStep(cfg: Config, b: Blk, deviceIdx: u16, h: VR.History)
    requires Honest(cfg, b, deviceIdx, h) && h.taken < |h.submitted| && h.inflight == []
    ensures var (b', d', h') := HonestStep(cfg, b, deviceIdx, h, DeviceTakes);
      && Honest(cfg, b', d', h') && b' == b && h' == VR.Taken(h)
      && h'.inflight == [b.header as int] == [h.submitted[h.taken]]
  {
    hide Honest, DriverInv, Begin, Accepts, Complete, VR.Take, VR.Post, VR.Outstanding, VR.Coupled, FL.Allocated;
    HonestStepKeeps(cfg, b, deviceIdx, h, DeviceTakes);
    TakeHonest(cfg, b, deviceIdx, h);
    TakenIsHead(cfg, b, deviceIdx, h);
  }

  lemma TakenIsHead(cfg: Config, b: Blk, deviceIdx: u16, h: VR.History)
    requires Honest(cfg, b, deviceIdx, h) && h.taken < |h.submitted|
    ensures b.busy && h.submitted[h.taken] == b.header
  {
    hide DriverInv;
    assert VR.Outstanding(h)[0] == h.submitted[h.taken];
  }

  /** The device completes the one chain it holds. */
  lemma CompleteStep(cfg: Config, b: Blk, deviceIdx: u16, h: VR.History, len: u32)
    requires Honest(cfg, b, deviceIdx, h) && |h.inflight| == 1
    ensures var (b', d', h') := HonestStep(cfg, b, deviceIdx, h, DeviceCompletes(0, len));
      && Honest(cfg, b', d', h') && h' == VR.Posted(h, 0, len)
      && b'.request == b.request
  {
    hide Honest, DriverInv, Begin, Accepts, Complete, VR.Take, VR.Post, VR.Outstanding, VR.Coupled, FL.Allocated;
    HonestStepKeeps(cfg, b, deviceIdx, h, DeviceCompletes(0, len));
  }

  /** Looking at the used ring while it holds the completion ends the request. */
  lemma PollStep(cfg: Config, b: Blk, deviceIdx: u16, h: VR.History)
    requires Honest(cfg, b, deviceIdx, h) && h.popped < |h.posted|
    ensures var (b', d', h') := HonestStep(cfg, b, deviceIdx, h, Poll);
      && Honest(cfg, b', d', h') && h' == VR.Popped(h) && !b'.busy && b'.done
      && b'.usedLen == h.posted[h.popped].len && b'.request == b.request
  {
    hide Honest, DriverInv, Begin, Accepts, Complete, VR.Take, VR.Post, VR.Outstanding, VR.Coupled, FL.Allocated;
    HonestStepKeeps(cfg, b, deviceIdx, h, Poll);
    CompleteHonest(cfg, b, deviceIdx, h);
    CompleteEffect(cfg, b) by { TakeBounds(cfg, b, deviceIdx, h); }
  }

  lemma FourSteps(cfg: Config, b: Blk, deviceIdx: u16, h: VR.History, e: seq<HonestEvent>)
    requires Honest(cfg, b, deviceIdx, h) && |e| == 4
    ensures var (b1, d1, h1) := HonestStep(cfg, b, deviceIdx, h, e[0]);
      && Honest(cfg, b1, d1, h1)
      && var (b2, d2, h2) := HonestStep(cfg, b1, d1, h1, e[1]);
      && Honest(cfg, b2, d2, h2)
      && var (b3, d3, h3) := HonestStep(cfg, b2, d2, h2, e[2]);
      && Honest(cfg, b3, d3, h3)
      && HonestRun(cfg, b, deviceIdx, h, e) == HonestStep(cfg, b3, d3, h3, e[3])
  {
    hide Honest, HonestStep;
    HonestStepKeeps(cfg, b, deviceIdx, h, e[0]);
    var (b1, d1, h1) := HonestStep(cfg, b, deviceIdx, h, e[0]);
    HonestStepKeeps(cfg, b1, d1, h1, e[1]);
    var (b2, d2, h2) := HonestStep(cfg, b1, d1, h1, e[1]);
    HonestStepKeeps(cfg, b2, d2, h2, e[2]);
    var (b3, d3, h3) := HonestStep(cfg, b2, d2, h2, e[2]);
    HonestStepKeeps(cfg, b3, d3, h3, e[3]);
    var (b4, d4, h4) := HonestStep(cfg, b3, d3, h3, e[3]);
    assert e[1..][0] == e[1] && e[1..][1..] == e[2..] && e[2..][1..] == e[3..] && e[3..][1..] == [];
    assert HonestRun(cfg, b, deviceIdx, h, e) == HonestRun(cfg, b1, d1, h1, e[1..]);
    assert HonestRun(cfg, b1, d1, h1, e[1..]) == HonestRun(cfg, b2, d2, h2, e[2..]);
    assert HonestRun(cfg, b2, d2, h2, e[2..]) == HonestRun(cfg, b3, d3, h3, e[3..]);
    assert HonestRun(cfg, b3, d3, h3, e[3..]) == HonestRun(cfg, b4, d4, h4, []);
  }

  /** A request to an idle driver, on a device that takes and completes it, ends at the next look at the used
      ring, with the length that the device reported. */
  lemma RoundTrip(cfg: Config, b: Blk, deviceIdx: u16, h: VR.History, q: Request, len: u32)
    requires Honest(cfg, b, deviceIdx, h) && !b.busy && Accepts(cfg, q)
    ensures var (b', _, h') := HonestRun(cfg, b, deviceIdx, h, [Ask(q), DeviceTakes, DeviceCompletes(0, len), Poll]);
      && !b'.busy && b'.done && b'.usedLen == len && b'.request == q
      && |h'.submitted| == |h.submitted| + 1 == |h'.posted| == h'.popped
      && h'.posted[|h.submitted|] == VR.UsedElem(h'.submitted[|h.submitted|] as int, len)
  {
    hide Honest, HonestStep, HonestRun, Accepts;
    IdleHistory(cfg, b, deviceIdx, h);
    FourSteps(cfg, b, deviceIdx, h, [Ask(q), DeviceTakes, DeviceCompletes(0, len), Poll]);
    AskStep(cfg, b, deviceIdx, h, q);
    var (b1, d1, h1) := HonestStep(cfg, b, deviceIdx, h, Ask(q));
    TakeStep(cfg, b1, d1, h1);
    var (b2, d2, h2) := HonestStep(cfg, b1, d1, h1, DeviceTakes);
    CompleteStep(cfg, b2, d2, h2, len);
    var (b3, d3, h3) := HonestStep(cfg, b2, d2, h2, DeviceCompletes(0, len));
    PollStep(cfg, b3, d3, h3);
  }

  /** From initialisation: against any device no descriptor is ever lost, and with a device that follows the standard
      every accepted request is completed exactly once. */
  lemma EveryRun(cfg: Config, table: FL.Table, events: seq<Event>, honest: seq<HonestEvent>)
    requires FL.TableOk(table) && |table.descs| == QUEUE_SIZE && FL.Allocated(table) == {}
    requires forall k :: 0 <= k < |events| ==> EventOk(events[k])
    ensures DriverInv(cfg, FreshBlk(table)) && Honest(cfg, FreshBlk(table), 0, VR.History([], 0, [], [], 0))
    ensures var b := HappenAll(cfg, FreshBlk(table), events);
      DriverInv(cfg, b) && b.table.numFree == if b.busy then QUEUE_SIZE - 3 else QUEUE_SIZE
    ensures var (b, _, h) := HonestRun(cfg, FreshBlk(table), 0, VR.History([], 0, [], [], 0), honest);
      h.popped + (if b.busy then 1 else 0) == |h.submitted|
  {
    hide DriverInv, Honest, HappenAll, HonestRun, FL.TableOk, FL.Allocated;
    FreshInv(cfg, table);
    FreshHonest(cfg, table);
    NoDescriptorLeak(cfg, FreshBlk(table), events);
    RequestsCompleteOnce(cfg, FreshBlk(table), 0, VR.History([], 0, [], [], 0), honest);
  }

  // ---- The driver ----

  /** The chain that a transfer starts from: three owned descriptors. */
  lemma BeginChain(cfg: Config, b: Blk, q: Request)
    requires DriverInv(cfg, b)
    ensures !b.busy ==>
      var (h, d, s, t) := ThreeDescs(b.table);
      h < |t.descs| && d < |t.descs| && s < |t.descs| && FL.TableOk(t) && FL.Allocated(t) == {h, d, s}
  {
    hide FL.Walk, FL.TableOk, FL.Allocated, FL.AllocDesc;
    if !b.busy {
      AllocThree(b.table);
    }
  }

  class Driver {
    const queue: VQ.Queue
    const cfg: Config
    var busy: bool
    var done: bool
    var usedLen: u32
    var header: u16
    var data: u16
    var status: u16
    var request: Request
    var sent: RequestHeader

    ghost function View(): Blk
      reads this, queue, queue.desc, queue.availRing, queue.usedRing
    {
      Blk(queue.TableView(), queue.RingView(), busy, done, usedLen, header, data, status, request, sent)
    }

    ghost predicate Valid()
      reads this, queue, queue.desc, queue.availRing, queue.usedRing
    {
      queue.Valid() && DriverInv(cfg, View())
    }

    /** The part of virtio_blk_init that sets up the queue. */
    constructor (queue: VQ.Queue, cfg: Config)
      requires queue.Valid() && queue.size == QUEUE_SIZE
      requires queue.RingView() == VR.FreshRing(QUEUE_SIZE) && FL.Allocated(queue.TableView()) == {}
      ensures Valid() && this.queue == queue && this.cfg == cfg && View() == FreshBlk(queue.TableView())
    {
      this.queue, this.cfg := queue, cfg;
      busy, done, usedLen, header, data, status := false, false, 0, 0, 0, 0;
      request := Request(0, 0, 0, 0);
      sent := RequestHeader(0, 0, 0);
      new;
      FreshInv(cfg, queue.TableView());
    }

    /** The allocations of a transfer. The branch that would undo a partial allocation cannot be reached. */
    method AllocChain() returns (h: int, d: int, s: int)
      requires Valid() && !busy
      modifies queue`freeHead, queue`numFree, queue.desc
      ensures queue.Valid()
      ensures old(ThreeDescs(queue.TableView())) == (h, d, s, queue.TableView())
    {
      hide FL.Walk, FL.TableOk, FL.Allocated, FL.AllocDesc;
      AllocThree(queue.TableView());
      h := queue.AllocDesc();
      d := queue.AllocDesc();
      s := queue.AllocDesc();
      if h < 0 || d < 0 || s < 0 {
        assert false;
      }
    }

    /** The request state and header of a transfer. */
    method Prepare(q: Request, h: u16, d: u16, s: u16)
      modifies this
      ensures View() == old(View().(busy := true, done := false, usedLen := 0, header := h, data := d, status := s,
                                    request := q, sent := RequestHeader(q.kind, 0, q.start)))
    {
      sent := RequestHeader(q.kind, 0, q.start);
      request, done, busy, usedLen := q, false, true, 0;
      header, data, status := h, d, s;
    }

    /** The descriptor writes of a transfer. */
    method WriteChain(q: Request)
      requires queue.Valid() && FL.Allocated(queue.TableView()) == {header, data, status}
      requires header < |queue.TableView().descs| && data < |queue.TableView().descs|
        && status < |queue.TableView().descs|
      modifies queue.desc
      ensures queue.Valid() && queue.TableView() == old(LinkChain(cfg, queue.TableView(), q, header, data, status))
    {
      hide FL.Walk, FL.TableOk, FL.Allocated, HeaderDesc, DataDesc, StatusDesc;
      queue.WriteDesc(header, HeaderDesc(cfg, data));
      queue.WriteDesc(data, DataDesc(q, status));
      queue.WriteDesc(status, StatusDesc(cfg));
    }

    /** virtio_blk_transfer up to the release of the lock. */
    method StartTransfer(q: Request) returns (ok: bool)
      requires Valid()
      modifies this, queue`freeHead, queue`numFree, queue`availIdx, queue.desc, queue.availRing
      ensures Valid()
      ensures old(Begin(cfg, View(), q)) == if ok then Some(View()) else None
      ensures !ok ==> View() == old(View())
    {
      hide FL.Walk, FL.TableOk, FL.Allocated, ThreeDescs, VR.Submit, Accepts, DataDesc, LinkChain;
      ghost var b := View();
      BeginInv(cfg, b, q);
      BeginChain(cfg, b, q);
      if !Accepts(cfg, q) || busy {
        return false;
      }
      var h, d, s := AllocChain();
      Prepare(q, h, d, s);
      WriteChain(q);
      queue.Submit(header);
      return true;
    }

    method FreePendingChain()
      requires Valid() && busy
      modifies queue`freeHead, queue`numFree, queue.desc
      ensures queue.Valid() && View() == old(View().(table := FreeChain(cfg, View())))
    {
      hide FL.Walk, FL.TableOk, FL.Allocated, FL.FreeDesc;
      ghost var b := View();
      FreeThree(b.table, b.header, b.data, b.status);
      queue.FreeDesc(header);
      queue.FreeDesc(data);
      queue.FreeDesc(status);
    }

    /** What the loop of virtio_blk_complete_used does with one popped element. */
    method CompleteElement(e: VR.UsedElem)
      requires Valid()
      modifies this`busy, this`done, this`usedLen, queue`freeHead, queue`numFree, queue.desc
      ensures Valid() && View() == old(CompleteOne(cfg, View(), e))
    {
      hide FL.Walk, FL.TableOk, FL.Allocated, FL.FreeDesc, ChainWritten, FreeChain;
      CompleteOneInv(cfg, View(), e);
      if busy && e.id == header {
        FreePendingChain();
        usedLen, done, busy := e.len, true, false;
      }
    }

    /** virtio_blk_complete_used. */
    method CompleteUsed()
      requires Valid()
      modifies this`busy, this`done, this`usedLen, queue`freeHead, queue`numFree, queue`lastUsedIdx, queue.desc
      ensures Valid() && View() == old(Complete(cfg, View()))
    {
      hide FL.Walk, FL.TableOk, FL.Allocated, ChainWritten, CompleteOne, VR.Unpopped;
      ghost var start := View();
      while true
        invariant Valid() && Complete(cfg, View()) == Complete(cfg, start)
        decreases VR.Unpopped(queue.RingView())
      {
        ghost var b := View();
        var e := queue.PopUsed();
        if e.None? {
          return;
        }
        VR.UnpoppedAfterPop(b.ring);
        ChainIgnoresRing(cfg, b, queue.RingView());
        CompleteOneRing(cfg, View(), e.value);
        CompleteElement(e.value);
      }
    }
  }

  lemma CompleteOneRing(cfg: Config, b: Blk, e: VR.UsedElem)
    requires DriverInv(cfg, b)
    ensures CompleteOne(cfg, b, e).ring == b.ring
  {
  }
}
