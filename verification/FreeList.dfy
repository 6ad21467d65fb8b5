/** The free list that a virtqueue threads through the `next` fields of its descriptors. */
module FreeList {
  import opened Bytes

  datatype Desc = Desc(addr: u64, len: u32, flags: u16, next: u16)

  datatype Table = Table(descs: seq<Desc>, head: u16, numFree: u16)

  /** The first n descriptors reached from `head`. */
  function Walk(descs: seq<Desc>, head: u16, n: nat): (nodes: seq<u16>)
    ensures |nodes| <= n && (0 < n ==> nodes != [] && nodes[0] == head)
    decreases n
  {
    if n == 0 then []
    else if head >= |descs| then [head]
    else [head] + Walk(descs, descs[head].next, n - 1)
  }

  function FreeNodes(t: Table): seq<u16> {
    Walk(t.descs, t.head, t.numFree)
  }

  predicate Below(s: seq<int>, n: nat) {
    forall i :: 0 <= i < |s| ==> 0 <= s[i] < n
  }

  /** The first numFree nodes from the head exist, are distinct, and are descriptors. */
  ghost predicate TableOk(t: Table) {
    var free := FreeNodes(t);
    0 < |t.descs| < TWO_16 && t.numFree <= |t.descs| && |free| == t.numFree && Distinct(free) && Below(free, |t.descs|)
  }

  /** The descriptors that are not on the free list. */
  function Allocated(t: Table): set<u16> {
    set d: u16 | 0 <= d < |t.descs| && d !in FreeNodes(t)
  }

  /** virtqueue_alloc_desc; None when no descriptor is free. */
  function AllocDesc(t: Table): (r: (Option<u16>, Table))
    requires t.numFree != 0 ==> t.head < |t.descs|
  {
    if t.numFree == 0 then (None, t)
    else
      var d := t.head;
      (Some(d), Table(t.descs[d := t.descs[d].(next := 0, flags := 0)], t.descs[d].next, t.numFree - 1))
  }

  /** virtqueue_free_desc. */
  function FreeDesc(t: Table, d: u16): Table
    requires d < |t.descs| && t.numFree < |t.descs| < TWO_16
  {
    Table(t.descs[d := t.descs[d].(next := t.head, flags := 0)], d, t.numFree + 1)
  }

  /** Writing a descriptor off the walk leaves the walk alone. */
  lemma {:induction false} WalkUpdate(descs: seq<Desc>, head: u16, n: nat, d: u16, x: Desc)
    requires d < |descs| && d !in Walk(descs, head, n)
    ensures Walk(descs[d := x], head, n) == Walk(descs, head, n)
    decreases n
  {
    if 0 < n && head < |descs| {
      var rest := Walk(descs, descs[head].next, n - 1);
      var whole := Walk(descs, head, n);
      assert whole == [head] + rest;
      assert whole[0] == head && forall i :: 0 <= i < |rest| ==> whole[i + 1] == rest[i];
      assert d != head && d !in rest;
      WalkUpdate(descs, descs[head].next, n - 1, d, x);
    }
  }

  lemma HeadIsFree(t: Table)
    requires TableOk(t) && t.numFree != 0
    ensures t.head < |t.descs| && t.head in FreeNodes(t) && t.head !in FreeNodes(t)[1..]
  {
    assert FreeNodes(t)[0] == t.head;
  }

  /** Allocation fails exactly when nothing is free; otherwise it hands out a descriptor that was free, and that
      descriptor alone changes hands. The stale head left when the list runs empty does no harm. */
  lemma AllocOwnership(t: Table)
    requires TableOk(t)
    ensures t.numFree != 0 ==> t.head < |t.descs|
    ensures var (r, t') := AllocDesc(t);
      && TableOk(t') && |t'.descs| == |t.descs|
      && (r.None? <==> t.numFree == 0)
      && (r.None? ==> t' == t)
      && (r.Some? ==> r.value < |t.descs| && r.value !in Allocated(t) && t'.numFree == t.numFree - 1)
      && (r.Some? ==> Allocated(t') == Allocated(t) + {r.value} && FreeNodes(t') == FreeNodes(t)[1..])
  {
    if t.numFree != 0 {
      HeadIsFree(t);
      var d, t' := t.head, AllocDesc(t).1;
      assert FreeNodes(t) == [d] + Walk(t.descs, t.descs[d].next, t.numFree - 1);
      assert FreeNodes(t)[1..] == Walk(t.descs, t.descs[d].next, t.numFree - 1);
      WalkUpdate(t.descs, t.descs[d].next, t.numFree - 1, d, t.descs[d].(next := 0, flags := 0));
      var free := FreeNodes(t);
      assert FreeNodes(t') == free[1..];
      assert free == [d] + free[1..];
      hide Walk;
      assert forall v :: v in free <==> v == d || v in free[1..];
    }
  }

  /** Freeing an owned descriptor puts it in front of the free list and takes it out of the allocated set. */
  lemma FreeOwnership(t: Table, d: u16)
    requires TableOk(t) && d in Allocated(t)
    ensures t.numFree < |t.descs|
    ensures var t' := FreeDesc(t, d);
      && TableOk(t') && |t'.descs| == |t.descs|
      && Allocated(t') == Allocated(t) - {d} && FreeNodes(t') == [d] + FreeNodes(t)
  {
    var free := FreeNodes(t);
    FreeSmaller(free, |t.descs|, d);
    var t' := FreeDesc(t, d);
    WalkUpdate(t.descs, t.head, t.numFree, d, t.descs[d].(next := t.head, flags := 0));
    assert FreeNodes(t') == [d] + free;
    hide Walk;
    assert forall v :: v in [d] + free <==> v == d || v in free;
  }

  /** Pigeonhole: distinct numbers below n are at most n. */
  lemma {:induction false} Pigeonhole(s: seq<int>, n: nat)
    requires Distinct(s) && Below(s, n)
    ensures |s| <= n
  {
    if s != [] {
      assert 0 <= s[0] < n;
      if i :| 0 <= i < |s| && s[i] == n - 1 {
        Pigeonhole(s[..i] + s[i + 1..], n - 1);
      } else {
        Pigeonhole(s, n - 1);
      }
    }
  }

  lemma FreeSmaller(free: seq<int>, n: nat, d: nat)
    requires Distinct(free) && Below(free, n) && d < n && d !in free
    ensures |free| < n
  {
    assert Distinct(free + [d]) && Below(free + [d], n);
    Pigeonhole(free + [d], n);
  }

  /** Writing an allocated descriptor changes neither the free list nor who owns what. */
  lemma WriteOwned(t: Table, d: u16, x: Desc)
    requires TableOk(t) && d in Allocated(t)
    ensures var t' := t.(descs := t.descs[d := x]);
      TableOk(t') && FreeNodes(t') == FreeNodes(t) && Allocated(t') == Allocated(t)
  {
    WalkUpdate(t.descs, t.head, t.numFree, d, x);
    hide Walk;
  }

  /** The list that virtqueue_init builds: 0, 1, ..., n - 1, with a stale 0 at the end. */
  predicate FreshChain(descs: seq<Desc>) {
    forall i :: 0 <= i < |descs| ==> descs[i].next == if i + 1 < |descs| then i + 1 else 0
  }

  lemma {:induction false} FreshWalk(descs: seq<Desc>, head: u16, n: nat)
    requires FreshChain(descs) && head + n <= |descs| < TWO_16
    ensures |Walk(descs, head, n)| == n && forall i :: 0 <= i < n ==> Walk(descs, head, n)[i] == head + i
    decreases n
  {
    if 0 < n {
      var rest := Walk(descs, descs[head].next, n - 1);
      if head + 1 < |descs| {
        FreshWalk(descs, head + 1, n - 1);
      }
      var whole := Walk(descs, head, n);
      assert whole == [head] + rest;
      assert forall i :: 1 <= i < n ==> whole[i] == rest[i - 1];
    }
  }

  /** The chain that initialisation builds: everything is free. */
  lemma FreshTable(descs: seq<Desc>)
    requires FreshChain(descs) && 0 < |descs| < TWO_16
    ensures var t := Table(descs, 0, |descs|); TableOk(t) && Allocated(t) == {}
  {
    var t := Table(descs, 0, |descs|);
    FreshWalk(descs, 0, |descs|);
    hide Walk;
    forall d: u16 | d < |descs|
      ensures d in FreeNodes(t)
    {
      assert FreeNodes(t)[d] == d;
    }
  }

  // ---- Whole runs ----

  datatype DescOp = Alloc | Free(d: u16)

  /** Every free is of a descriptor that is allocated at that moment. */
  predicate OwnedRun(t: Table, ops: seq<DescOp>)
    requires TableOk(t)
    decreases |ops|
  {
    ops != [] ==>
      match ops[0]
      case Alloc => AllocOwnership(t); OwnedRun(AllocDesc(t).1, ops[1..])
      case Free(d) => d in Allocated(t) && (FreeOwnership(t, d); OwnedRun(FreeDesc(t, d), ops[1..]))
  }

  function RunDescs(t: Table, ops: seq<DescOp>): (r: (Table, seq<Option<u16>>))
    requires TableOk(t) && OwnedRun(t, ops)
    decreases |ops|
  {
    if ops == [] then (t, [])
    else match ops[0]
      case Alloc =>
        AllocOwnership(t);
        var rest := RunDescs(AllocDesc(t).1, ops[1..]);
        (rest.0, [AllocDesc(t).0] + rest.1)
      case Free(d) =>
        FreeOwnership(t, d);
        RunDescs(FreeDesc(t, d), ops[1..])
  }

  function Allocs(n: nat): (ops: seq<DescOp>)
    ensures |ops| == n
  {
    if n == 0 then [] else [Alloc] + Allocs(n - 1)
  }

  /** Allocating again and again hands out every free descriptor, and then fails. */
  lemma {:induction false} DrainRun(t: Table)
    requires TableOk(t)
    ensures OwnedRun(t, Allocs(t.numFree + 1))
    ensures var (t', results) := RunDescs(t, Allocs(t.numFree + 1));
      && t'.numFree == 0 && |results| == t.numFree + 1 && results[t.numFree] == None
      && forall k :: 0 <= k < t.numFree ==> results[k].Some?
    decreases t.numFree
  {
    hide TableOk;
    AllocOwnership(t);
    var t1 := AllocDesc(t).1;
    var ops := Allocs(t.numFree + 1);
    assert ops[0] == Alloc && ops[1..] == Allocs(t.numFree);
    if t.numFree == 0 {
      assert Allocs(0) == [];
    } else {
      DrainRun(t1);
      var rest := RunDescs(t1, Allocs(t.numFree)).1;
      assert RunDescs(t, ops).1 == [AllocDesc(t).0] + rest;
    }
  }

  /** The specification of a run: a set of owned descriptors, from which the results of the allocations are checked. */
  predicate SetRun(owned: set<u16>, size: nat, ops: seq<DescOp>, results: seq<Option<u16>>, final: set<u16>)
    decreases |ops|
  {
    if ops == [] then results == [] && final == owned
    else match ops[0]
      case Free(d) => d in owned && SetRun(owned - {d}, size, ops[1..], results, final)
      case Alloc =>
        && results != []
        && match results[0]
           case None => |owned| == size && SetRun(owned, size, ops[1..], results[1..], final)
           case Some(d) => d < size && d !in owned && SetRun(owned + {d}, size, ops[1..], results[1..], final)
  }

  /** Free and allocated descriptors add up to the queue size. */
  lemma OwnershipCount(t: Table)
    requires TableOk(t)
    ensures |Allocated(t)| + t.numFree == |t.descs|
  {
    hide Walk;
    AllocatedCount(FreeNodes(t), |t.descs|);
    assert Allocated(t) == Outside(FreeNodes(t), |t.descs|);
  }

  ghost function UpTo(n: nat): (r: set<u16>)
    requires n < TWO_16
    ensures |r| == n && forall d: u16 :: d in r <==> d < n
  {
    if n == 0 then {} else UpTo(n - 1) + {n - 1}
  }

  /** The descriptors below n that are not in this list. */
  ghost function Outside(free: seq<u16>, n: nat): set<u16>
    requires n < TWO_16
  {
    set d | d in UpTo(n) && d !in free
  }

  lemma OutsideLess(init: seq<u16>, last: u16, n: nat)
    requires n < TWO_16 && last < n && last !in init
    ensures last in Outside(init, n) && Outside(init + [last], n) == Outside(init, n) - {last}
  {
    hide UpTo;
  }

  lemma DistinctInit(free: seq<u16>, n: nat)
    requires Distinct(free) && Below(free, n) && free != []
    ensures var last, init := free[|free| - 1], free[..|free| - 1];
      free == init + [last] && last < n && last !in init && Distinct(init) && Below(init, n)
  {
  }

  lemma {:induction false} AllocatedCount(free: seq<u16>, n: nat)
    requires Distinct(free) && Below(free, n) && n < TWO_16
    ensures |Outside(free, n)| + |free| == n
    decreases |free|
  {
    hide Distinct, Below;
    if free == [] {
      assert Outside(free, n) == UpTo(n);
    } else {
      hide Outside;
      var last, init := free[|free| - 1], free[..|free| - 1];
      DistinctInit(free, n);
      AllocatedCount(init, n);
      OutsideLess(init, last, n);
    }
  }

  /** Any interleaving of allocations and frees of owned descriptors refines the set specification: an allocation
      fails only when all descriptors are owned and otherwise yields one that nobody owns. */
  lemma {:induction false} RunRefinesSet(t: Table, ops: seq<DescOp>)
    requires TableOk(t) && OwnedRun(t, ops)
    ensures var (t', results) := RunDescs(t, ops);
      TableOk(t') && SetRun(Allocated(t), |t.descs|, ops, results, Allocated(t'))
    decreases |ops|
  {
    hide Walk;
    if ops != [] {
      match ops[0]
      case Alloc =>
        AllocOwnership(t);
        OwnershipCount(t);
        RunRefinesSet(AllocDesc(t).1, ops[1..]);
        var (t', results) := RunDescs(t, ops);
        assert results[1..] == RunDescs(AllocDesc(t).1, ops[1..]).1;
      case Free(d) =>
        FreeOwnership(t, d);
        RunRefinesSet(FreeDesc(t, d), ops[1..]);
    }
  }
}
