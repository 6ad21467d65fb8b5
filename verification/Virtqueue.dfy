/** The virtqueue driver code: one page of descriptors and rings, updated in place. */
module Virtqueue {
  import opened Bytes
  import FL = FreeList
  import VR = VirtRing

  const PAGE_SIZE := 4096

  /** Where virtqueue_init puts the three parts of a queue inside its page (VirtIO 1.1, section 2.6). */
  function AvailOffset(size: u16): nat {
    16 * size
  }

  function AlignUp4(v: nat): (r: nat)
    ensures v <= r < v + 4
  {
    (v + 3) - (v + 3) % 4
  }

  function UsedOffset(size: u16): nat {
    AlignUp4(AvailOffset(size) + 4 + 2 * size + 2)
  }

  function QueueBytes(size: u16): nat {
    UsedOffset(size) + 4 + 8 * size + 2
  }

  /** The descriptors, the available ring with its event field, and the used ring do not overlap, are aligned as the
      standard asks, and end inside the page when the size is accepted. */
  lemma LayoutDisjoint(size: u16)
    requires QueueBytes(size) <= PAGE_SIZE
    ensures AvailOffset(size) % 2 == 0 && UsedOffset(size) % 4 == 0
    ensures 16 * size <= AvailOffset(size) && AvailOffset(size) + 6 + 2 * size <= UsedOffset(size)
    ensures UsedOffset(size) + 6 + 8 * size <= PAGE_SIZE && size < 160
  {
    Aligned4(AvailOffset(size) + 6 + 2 * size);
    assert AvailOffset(size) == 2 * (8 * size);
    hide AlignUp4;
  }

  lemma Aligned4(v: nat)
    ensures AlignUp4(v) % 4 == 0
  {
  }

  /** The sizes that fit a page are exactly those up to 157. */
  lemma AcceptedSizes(size: u16)
    ensures QueueBytes(size) <= 4096 <==> size <= 157
  {
    assert AvailOffset(size) + 6 + 2 * size == 18 * size + 6;
    if size >= 158 {
      assert UsedOffset(size) >= 18 * size + 6;
    }
  }

  /** An accepted size for which deliveries can go wrong at the index wrap (VirtRing.DeliveryIff). */
  lemma OddSizeAccepted()
    ensures QueueBytes(3) <= PAGE_SIZE && 0x1_0000 % 3 != 0
  {
  }

  class Queue {
    var size: u16
    var numFree: u16
    var freeHead: u16
    var lastUsedIdx: u16
    var desc: array<FL.Desc>
    var availIdx: u16
    var availRing: array<u16>
    var usedIdx: u16
    var usedRing: array<VR.UsedElem>

    constructor ()
      ensures size == 0
    {
      size, numFree, freeHead, lastUsedIdx, availIdx, usedIdx := 0, 0, 0, 0, 0, 0;
      desc, availRing, usedRing := new FL.Desc[0], new u16[0], new VR.UsedElem[0];
    }

    ghost predicate Valid()
      reads this, desc
    {
      && 0 < size && desc.Length == size && availRing.Length == size && usedRing.Length == size
      && FL.TableOk(TableView())
    }

    ghost function TableView(): FL.Table
      reads this, desc
    {
      FL.Table(desc[..], freeHead, numFree)
    }

    ghost function RingView(): VR.Ring
      reads this, availRing, usedRing
    {
      VR.Ring(size, availIdx, availRing[..], usedIdx, usedRing[..], lastUsedIdx)
    }

    /** virtqueue_init: every descriptor free, both rings zero. */
    method Init(size: u16, pageAvailable: bool) returns (ok: bool)
      modifies this
      ensures ok <==> 1 <= size <= 157 && pageAvailable
      ensures ok ==> Valid() && fresh(desc) && fresh(availRing) && fresh(usedRing)
      ensures ok ==> this.size == size && RingView() == VR.FreshRing(size)
      ensures ok ==> numFree == size && FL.Allocated(TableView()) == {}
    {
      hide FL.Walk, FL.TableOk, FL.Allocated, FL.FreshChain, QueueBytes;
      AcceptedSizes(size);
      if size == 0 || QueueBytes(size) > PAGE_SIZE || !pageAvailable {
        return false;
      }
      Allocate(size);
      LinkDescriptors();
      FL.FreshTable(desc[..]);
      return true;
    }

    /** The zeroed page of virtqueue_init and its counters. */
    method Allocate(size: u16)
      requires 0 < size
      modifies this
      ensures fresh(desc) && fresh(availRing) && fresh(usedRing) && RingView() == VR.FreshRing(size)
      ensures desc.Length == availRing.Length == usedRing.Length == size && numFree == size && freeHead == 0
      ensures this.size == size
    {
      this.size, numFree, freeHead, lastUsedIdx := size, size, 0, 0;
      desc := new FL.Desc[size](_ => FL.Desc(0, 0, 0, 0));
      availIdx, usedIdx := 0, 0;
      availRing := new u16[size](_ => 0);
      usedRing := new VR.UsedElem[size](_ => VR.UsedElem(0, 0));
      assert availRing[..] == VR.FreshRing(size).availRing;
      assert usedRing[..] == VR.FreshRing(size).usedRing;
    }

    /** The loop of virtqueue_init that threads the free list. */
    method LinkDescriptors()
      requires 0 < size == desc.Length && freeHead == 0
      modifies this`freeHead, desc
      ensures freeHead == 0 && FL.FreshChain(desc[..])
    {
      while freeHead < size - 1
        invariant freeHead < size
        invariant forall i :: 0 <= i < freeHead ==> desc[i].next == i + 1
        decreases size - freeHead
      {
        desc[freeHead] := desc[freeHead].(next := freeHead + 1);
        freeHead := freeHead + 1;
      }
      desc[freeHead] := desc[freeHead].(next := 0);
      freeHead := 0;
    }

    /** virtqueue_alloc_desc: the index of a descriptor that was free, or -1 when none is. */
    method AllocDesc() returns (r: int)
      requires Valid()
      modifies this`freeHead, this`numFree, desc
      ensures Valid()
      ensures numFree < TWO_16 && (old(numFree) != 0 ==> old(freeHead) < |old(desc[..])|)
      ensures old(FL.AllocDesc(TableView())) == (if r < 0 then None else Some(r), TableView())
    {
      ghost var t := TableView();
      FL.AllocOwnership(t);
      if numFree == 0 {
        return -1;
      }
      r := freeHead;
      freeHead := desc[r].next;
      numFree := numFree - 1;
      desc[r] := desc[r].(next := 0);
      desc[r] := desc[r].(flags := 0);
      assert TableView() == FL.AllocDesc(t).1;
    }

    /** virtqueue_free_desc. */
    method FreeDesc(d: u16)
      requires Valid() && d in FL.Allocated(TableView())
      modifies this`freeHead, this`numFree, desc
      ensures Valid()
      ensures old(numFree) < |old(desc[..])| < TWO_16
      ensures TableView() == old(FL.FreeDesc(TableView(), d))
    {
      ghost var t := TableView();
      FL.FreeOwnership(t, d);
      desc[d] := desc[d].(next := freeHead);
      desc[d] := desc[d].(flags := 0);
      freeHead := d;
      numFree := numFree + 1;
      assert TableView() == FL.FreeDesc(t, d);
    }

    /** The driver's write of a descriptor it owns. */
    method WriteDesc(d: u16, x: FL.Desc)
      requires Valid() && d in FL.Allocated(TableView())
      modifies desc
      ensures Valid() && TableView() == old(TableView().(descs := desc[..][d := x]))
      ensures FL.Allocated(TableView()) == old(FL.Allocated(TableView()))
    {
      ghost var t := TableView();
      FL.WriteOwned(t, d, x);
      desc[d] := x;
      assert TableView() == t.(descs := t.descs[d := x]);
    }

    /** virtqueue_submit. */
    method Submit(head: u16)
      requires Valid()
      modifies this`availIdx, availRing
      ensures Valid() && RingView() == old(VR.Submit(RingView(), head))
    {
      var ringIndex := availIdx % size;
      availRing[ringIndex] := head;
      availIdx := VR.Next16(availIdx);
    }

    /** virtqueue_pop_used. */
    method PopUsed() returns (e: Option<VR.UsedElem>)
      requires Valid()
      modifies this`lastUsedIdx
      ensures Valid() && (e, RingView()) == old(VR.Pop(RingView()))
    {
      if lastUsedIdx == usedIdx {
        return None;
      }
      e := Some(usedRing[lastUsedIdx % size]);
      lastUsedIdx := VR.Next16(lastUsedIdx);
    }
  }
}
