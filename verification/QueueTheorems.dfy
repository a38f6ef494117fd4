/** Consequences of the invariant: partition of the descriptor table, exact 16-bit indices,
    refinement of an abstract pair of queues, chain stability and the cookie round trip. */
module QueueTheorems {
  import opened Bits
  import opened Counting
  import opened QueueState
  import opened QueueInvariant

  // ---- Partition of the descriptor table ----

  /** The descriptor reached by following k `next` links. */
  function Follow(desc: seq<Desc>, idx: nat, k: nat): nat
    decreases k
  {
    if k == 0 then idx else Follow(desc, At(desc, idx, NO_DESC).next, k - 1)
  }

  lemma {:induction false} FollowList(desc: seq<Desc>, free: seq<nat>, p: nat, k: nat)
    requires Linked(desc, free) && p + k <= |free|
    ensures Follow(desc, At(free, p, CHAIN_END), k) == At(free, p + k, CHAIN_END)
    decreases k
  {
    if k > 0 {
      assert FreeLink(desc, free, p);
      FollowList(desc, free, p + 1, k - 1);
    }
  }

  ghost function Owned(h: History, a: nat): set<nat> {
    if a < |h.added| then Elems(h.added[a].idxs) else {}
  }

  /** In every reachable state the list from the free head has exactly `vq_free_cnt` different
      descriptors and then the end mark; no live chain shares a descriptor with it or with
      another live chain; and every descriptor is in the list or in a live chain. */
  lemma Partition(q: Sys)
    requires Inv(q)
    ensures |q.h.free| == q.drv.freeCnt && Distinct(q.h.free)
    ensures forall p: nat :: p < q.drv.freeCnt ==> Follow(q.ring.desc, q.drv.head, p) == q.h.free[p] < q.n
    ensures Follow(q.ring.desc, q.drv.head, q.drv.freeCnt) == CHAIN_END
    ensures forall a: nat :: Live(q.h, a) ==> Distinct(q.h.added[a].idxs) && Owned(q.h, a) !! Elems(q.h.free)
    ensures forall a: nat, b: nat :: Live(q.h, a) && Live(q.h, b) && a != b ==> Owned(q.h, a) !! Owned(q.h, b)
    ensures forall d: nat :: d < q.n ==> d in Elems(q.h.free) || exists a: nat :: Live(q.h, a) && d in Owned(q.h, a)
  {
    FreeDistinct(q.h);
    forall p: nat | p <= q.drv.freeCnt
      ensures Follow(q.ring.desc, q.drv.head, p) == At(q.h.free, p, CHAIN_END)
      ensures p < q.drv.freeCnt ==> q.h.free[p] < q.n
    {
      FollowList(q.ring.desc, q.h.free, 0, p);
      assert p < q.drv.freeCnt ==> FreePlace(q.h, p);
    }
    forall a: nat | Live(q.h, a)
      ensures Distinct(q.h.added[a].idxs) && Owned(q.h, a) !! Elems(q.h.free)
    {
      ChainApart(q.h, a);
    }
    forall a: nat, b: nat | Live(q.h, a) && Live(q.h, b) && a != b
      ensures Owned(q.h, a) !! Owned(q.h, b)
    {
      ChainsApart(q.h, a, b);
    }
    forall d: nat | d < q.n
      ensures d in Elems(q.h.free) || exists a: nat :: Live(q.h, a) && d in Owned(q.h, a)
    {
      assert DescPlace(q.h, d);
      if q.h.place[d].In? { assert d in Owned(q.h, q.h.place[d].chain); }
    }
  }

  lemma ChainApart(h: History, a: nat)
    requires Places(h) && Live(h, a)
    ensures Distinct(h.added[a].idxs) && Owned(h, a) !! Elems(h.free)
  {
    assert ChainPlaces(h, a);
    forall i, j | 0 <= i < j < |h.added[a].idxs|
      ensures h.added[a].idxs[i] != h.added[a].idxs[j]
    {
      assert ChainPlace(h, a, i) && ChainPlace(h, a, j);
    }
    forall d | d in Owned(h, a)
      ensures d !in Elems(h.free)
    {
      var i :| 0 <= i < |h.added[a].idxs| && h.added[a].idxs[i] == d;
      assert ChainPlace(h, a, i);
      forall p | 0 <= p < |h.free| ensures h.free[p] != d { assert FreePlace(h, p); }
    }
  }

  lemma ChainsApart(h: History, a: nat, b: nat)
    requires Places(h) && Live(h, a) && Live(h, b) && a != b
    ensures Owned(h, a) !! Owned(h, b)
  {
    assert ChainPlaces(h, a) && ChainPlaces(h, b);
    forall d | d in Owned(h, a)
      ensures d !in Owned(h, b)
    {
      var i :| 0 <= i < |h.added[a].idxs| && h.added[a].idxs[i] == d;
      assert ChainPlace(h, a, i);
      forall p | 0 <= p < |h.added[b].idxs| ensures h.added[b].idxs[p] != d { assert ChainPlace(h, b, p); }
    }
  }

  /** Every table index that either side reads from memory is inside its table. */
  lemma InBounds(q: Sys)
    requires Inv(q)
    ensures q.drv.freeCnt == 0 <==> q.drv.head == CHAIN_END
    ensures q.drv.freeCnt > 0 ==> q.drv.head < q.n
    ensures q.h.taken < q.h.pub ==> NextAvail(q.ring, q.dev) < q.n
    ensures q.h.recl < q.h.ret ==> U16(NextUsed(q.ring, q.drv).id) < q.n
    ensures forall head :: 0 <= head && Held(q.h, head) ==> head < q.n
  {
    if q.drv.freeCnt > 0 { assert FreePlace(q.h, 0); }
    if q.h.taken < q.h.pub { NextAvailMeans(q); }
    if q.h.recl < q.h.ret { NextUsedMeans(q); }
  }

  // ---- 16-bit indices are exact ----

  /** The wrapped equality tests and differences are those of the unbounded counters. */
  lemma IndicesExact(q: Sys)
    requires Inv(q)
    ensures q.drv.usedCons == q.ring.usedIdx <==> q.h.recl == q.h.ret
    ensures q.dev.availCons == q.ring.availIdx <==> q.h.taken == q.h.pub
    ensures U16(q.ring.usedIdx - q.drv.usedCons) == q.h.ret - q.h.recl
    ensures U16(q.ring.availIdx - q.dev.availCons) == q.h.pub - q.h.taken
  {
    Window(q);
    CounterEq(q.h.recl, q.h.ret);
    CounterEq(q.h.taken, q.h.pub);
  }

  /** And so are the slots. */
  lemma SlotsExact(q: Sys)
    requires Shape(q) && Counters(q)
    ensures Slot(q.ring.availIdx, q.n) == q.h.pub % q.n && Slot(q.dev.availCons, q.n) == q.h.taken % q.n
    ensures Slot(q.ring.usedIdx, q.n) == q.h.ret % q.n && Slot(q.drv.usedCons, q.n) == q.h.recl % q.n
  {
    SlotOfCounter(q.h.pub, q.n);
    SlotOfCounter(q.h.taken, q.n);
    SlotOfCounter(q.h.ret, q.n);
    SlotOfCounter(q.h.recl, q.n);
  }

  // ---- Refinement: two FIFO queues of chains ----

  datatype Done = Done(chain: Chain, len: nat)

  /** What the two sides agree on: chains offered to the device, in order, and chains handed
      back, in order. */
  datatype Queues = Queues(offered: seq<Chain>, done: seq<Done>)

  function DoneAt(h: History, k: nat): Done {
    Done(At(h.added, At(h.order, k, 0), NO_CHAIN), At(h.lens, k, 0))
  }

  function DoneSeq(h: History): seq<Done> {
    if h.recl <= h.ret then seq(h.ret - h.recl, (i: nat) => DoneAt(h, h.recl + i)) else []
  }

  function Abs(q: Sys): Queues {
    Queues(if q.h.taken <= q.h.pub <= |q.h.added| then q.h.added[q.h.taken..q.h.pub] else [], DoneSeq(q.h))
  }

  /** The only effect of an event on the pair of queues. */
  function AbsNext(s: Queues, h: History, e: Event): Queues {
    match e
    case AddBump => s.(offered := s.offered + [At(h.added, h.pub, NO_CHAIN)])
    case Take => s.(offered := if s.offered == [] then [] else s.offered[1..])
    case RetBump => s.(done := s.done + [DoneAt(h, h.ret)])
    case Reclaim => s.(done := if s.done == [] then [] else s.done[1..])
    case _ => s
  }

  lemma DoneKept(q: Sys, e: Event, k: nat)
    requires Inv(q) && Enabled(q, e) && k < |q.h.order|
    ensures DoneAt(Next(q, e).h, k) == DoneAt(q.h, k)
  {
    assert ReturnedAt(q.h, k);
  }

  lemma OfferedStep(q: Sys, e: Event)
    requires Inv(q) && Enabled(q, e)
    ensures Abs(Next(q, e)).offered == AbsNext(Abs(q), q.h, e).offered
  {}

  ghost predicate SameDone(h: History, h': History) {
    forall k: nat :: h.recl <= k < |h.order| ==> DoneAt(h', k) == DoneAt(h, k)
  }

  lemma DonePop(h: History, h': History)
    requires SameDone(h, h') && h.recl < h.ret <= |h.order| && h'.recl == h.recl + 1 && h'.ret == h.ret
    ensures DoneSeq(h') == DoneSeq(h)[1..]
  {}

  lemma DonePush(h: History, h': History)
    requires SameDone(h, h') && h.recl <= h.ret < |h.order| && h'.recl == h.recl && h'.ret == h.ret + 1
    ensures DoneSeq(h') == DoneSeq(h) + [DoneAt(h, h.ret)]
  {}

  lemma DoneStay(h: History, h': History)
    requires SameDone(h, h') && h.recl <= h.ret <= |h.order| && h'.recl == h.recl && h'.ret == h.ret
    ensures DoneSeq(h') == DoneSeq(h)
  {}

  lemma DoneStep(q: Sys, e: Event)
    requires Inv(q) && Enabled(q, e)
    ensures Abs(Next(q, e)).done == AbsNext(Abs(q), q.h, e).done
  {
    var h' := Next(q, e).h;
    forall k: nat | q.h.recl <= k < |q.h.order| ensures DoneAt(h', k) == DoneAt(q.h, k) { DoneKept(q, e, k); }
    if e.Reclaim? {
      DonePop(q.h, h');
    } else if e.RetBump? {
      DonePush(q.h, h');
    } else {
      DoneStay(q.h, h');
    }
  }

  /** Every step of either processor, at any point of the other's operation, acts on the pair of
      queues as an append at one end or a removal at the other, or not at all. */
  lemma Refines(q: Sys, e: Event)
    requires Inv(q) && Enabled(q, e)
    ensures Abs(Next(q, e)) == AbsNext(Abs(q), q.h, e)
  {
    OfferedStep(q, e);
    DoneStep(q, e);
  }

  /** The device sees "nothing" exactly when no chain is offered; otherwise it reads the first
      descriptor of the oldest offered chain. */
  lemma DeviceReadsFront(q: Sys)
    requires Inv(q)
    ensures q.dev.availCons == q.ring.availIdx <==> Abs(q).offered == []
    ensures Abs(q).offered != [] ==>
      var c, head := Abs(q).offered[0], NextAvail(q.ring, q.dev);
      && |c.idxs| == |c.bufs| > 0
      && head == c.idxs[0] < q.n == |q.ring.desc|
      && q.ring.desc[head].addr == c.bufs[0].addr
      && q.ring.desc[head].len == c.bufs[0].len
  {
    Window(q);
    CounterEq(q.h.taken, q.h.pub);
    if q.h.taken < q.h.pub {
      NextAvailMeans(q);
      assert LinkOk(q.ring.desc, q.h.added[q.h.taken], 0);
    }
  }

  /** The driver sees "nothing" exactly when no chain is finished; otherwise it gets the cookie
      and the length of the oldest finished one. */
  lemma DriverReadsFront(q: Sys)
    requires Inv(q)
    ensures q.drv.usedCons == q.ring.usedIdx <==> Abs(q).done == []
    ensures Abs(q).done != [] ==>
      var d := Abs(q).done[0];
      UsedCookie(q.ring, q.drv) == d.chain.cookie != NULL && NextUsed(q.ring, q.drv).len == d.len
  {
    Window(q);
    CounterEq(q.h.recl, q.h.ret);
    if q.h.recl < q.h.ret {
      NextUsedMeans(q);
      assert Abs(q).done[0] == DoneAt(q.h, q.h.recl);
    }
  }

  // ---- Whole runs ----

  /** Logs only grow. */
  lemma LogsGrow(q: Sys, e: Event)
    requires Inv(q) && Enabled(q, e)
    ensures q.h.added <= Next(q, e).h.added && q.h.order <= Next(q, e).h.order && q.h.lens <= Next(q, e).h.lens
    ensures q.h.pub <= Next(q, e).h.pub && q.h.taken <= Next(q, e).h.taken
    ensures q.h.ret <= Next(q, e).h.ret && q.h.recl <= Next(q, e).h.recl
  {}

  lemma {:induction false} RunGrows(n: nat, ev: bool, qs: seq<Sys>, es: seq<Event>, i: nat, j: nat)
    requires RingSize(n) && IsRun(n, ev, qs, es) && i <= j < |qs|
    ensures qs[i].h.added <= qs[j].h.added && qs[i].h.order <= qs[j].h.order && qs[i].h.lens <= qs[j].h.lens
    ensures qs[i].h.recl <= qs[j].h.recl && qs[i].h.taken <= qs[j].h.taken
    decreases j
  {
    if i < j {
      RunGrows(n, ev, qs, es, i, j - 1);
      RunInv(n, ev, qs, es, j - 1);
      assert StepAt(qs, es, j - 1);
      LogsGrow(qs[j - 1], es[j - 1]);
    }
  }

  /** From its publication until its reclamation a chain's descriptors keep the address, length
      and flags the driver wrote, whatever either side does in between. */
  lemma ChainStable(n: nat, ev: bool, qs: seq<Sys>, es: seq<Event>, i: nat, j: nat, a: nat, p: nat)
    requires RingSize(n) && IsRun(n, ev, qs, es) && i <= j < |qs|
    requires a < |qs[i].h.added| && Live(qs[j].h, a) && p < |qs[i].h.added[a].idxs|
    ensures Live(qs[i].h, a) && |qs[i].h.added[a].bufs| == |qs[i].h.added[a].idxs|
    ensures var d, b := qs[i].h.added[a].idxs[p], qs[i].h.added[a].bufs[p];
      && d < n == |qs[i].ring.desc| == |qs[j].ring.desc|
      && qs[i].ring.desc[d].addr == qs[j].ring.desc[d].addr == b.addr
      && qs[i].ring.desc[d].len == qs[j].ring.desc[d].len == b.len
      && qs[i].ring.desc[d].flags == qs[j].ring.desc[d].flags
      && FlagsOf(qs[j].ring.desc[d].flags, p, |qs[i].h.added[a].bufs|, qs[i].h.added[a].readable)
  {
    RunGrows(n, ev, qs, es, i, j);
    RunInv(n, ev, qs, es, i);
    RunInv(n, ev, qs, es, j);
    var hi, hj := qs[i].h, qs[j].h;
    assert StageAt(hi, a) && StageAt(hj, a);
    assert hi.stage[a].Returned? ==> ReturnedAt(hj, hi.stage[a].k);
    assert LinkOk(qs[i].ring.desc, hi.added[a], p) && LinkOk(qs[j].ring.desc, hj.added[a], p);
    FlagBits(p, |hi.added[a].bufs|, hi.added[a].readable);
  }

  /** An available slot is not overwritten from the write of its head until the device has taken it,
      nor a used slot from the write of its element until the driver has read it. */
  lemma UnreadSlotsStable(n: nat, ev: bool, qs: seq<Sys>, es: seq<Event>, i: nat, j: nat, k: nat)
    requires RingSize(n) && IsRun(n, ev, qs, es) && i <= j < |qs|
    ensures k < |qs[i].h.added| && qs[j].h.taken <= k ==>
      At(qs[j].ring.availRing, k % n, 0) == At(qs[i].ring.availRing, k % n, 0) == At(qs[i].h.added[k].idxs, 0,
                                                                                     CHAIN_END)
    ensures k < |qs[i].h.order| && qs[j].h.recl <= k ==>
      At(qs[j].ring.usedRing, k % n, NO_USED) == At(qs[i].ring.usedRing, k % n, NO_USED)
      == UsedElem(At(DoneAt(qs[i].h, k).chain.idxs, 0, CHAIN_END), DoneAt(qs[i].h, k).len)
  {
    RunInv(n, ev, qs, es, i);
    RunInv(n, ev, qs, es, j);
    RunGrows(n, ev, qs, es, i, j);
    assert k < |qs[i].h.added| && qs[j].h.taken <= k ==> AvailSlot(qs[i], k) && AvailSlot(qs[j], k);
    assert k < |qs[i].h.order| && qs[j].h.recl <= k ==> UsedSlot(qs[i], k) && UsedSlot(qs[j], k);
  }

  /** The (cookie, length) pairs that virtqueue_get_buffer has returned after i events. */
  function Collected(qs: seq<Sys>, es: seq<Event>, i: nat): seq<(nat, nat)>
    requires i <= |es| && |qs| == |es| + 1
  {
    if i == 0 then []
    else if es[i - 1].Reclaim? then
      Collected(qs, es, i - 1) +
      [(UsedCookie(qs[i - 1].ring, qs[i - 1].drv), NextUsed(qs[i - 1].ring, qs[i - 1].drv).len)]
    else Collected(qs, es, i - 1)
  }

  /** The first r returned chains are the ones no longer live. */
  lemma ReclaimedOnce(h: History)
    requires Stages(h) && h.recl <= |h.order|
    ensures Distinct(h.order)
    ensures forall a: nat :: a < |h.added| ==> (!Live(h, a) <==> a in h.order[..h.recl])
  {
    OrderDistinct(h);
    var gone := h.order[..h.recl];
    forall a: nat | a < |h.added|
      ensures !Live(h, a) <==> a in gone
    {
      assert StageAt(h, a);
      assert !Live(h, a) ==> gone[h.stage[a].k] == a;
      forall k: nat | k < |gone| && gone[k] == a ensures !Live(h, a) { assert ReturnedAt(h, k); }
    }
  }

  ghost predicate CollectedAt(h: History, got: seq<(nat, nat)>, k: nat) {
    && k < |got| && k < |h.order| && k < |h.lens| && h.order[k] < |h.added|
    && got[k] == (h.added[h.order[k]].cookie, h.lens[k])
  }

  /** For every run and every order in which the device completes chains: the k-th collected
      cookie is that of the k-th returned chain with the length the device gave; no chain is
      collected twice, and a chain is collected exactly if it is no longer live. */
  lemma CookieRoundTrip(n: nat, ev: bool, qs: seq<Sys>, es: seq<Event>, i: nat)
    requires RingSize(n) && IsRun(n, ev, qs, es) && i < |qs|
    ensures var h, got := qs[i].h, Collected(qs, es, i);
      && |got| == h.recl <= |h.order|
      && (forall k: nat :: k < h.recl ==> CollectedAt(h, got, k))
      && Distinct(h.order)
      && (forall a: nat :: a < |h.added| ==> (!Live(h, a) <==> a in h.order[..h.recl]))
  {
    RunInv(n, ev, qs, es, i);
    CollectedInOrder(n, ev, qs, es, i);
    ReclaimedOnce(qs[i].h);
  }

  lemma {:induction false} CollectedInOrder(n: nat, ev: bool, qs: seq<Sys>, es: seq<Event>, i: nat)
    requires RingSize(n) && IsRun(n, ev, qs, es) && i < |qs|
    ensures var h, got := qs[i].h, Collected(qs, es, i);
      |got| == h.recl && forall k: nat :: k < h.recl ==> CollectedAt(h, got, k)
  {
    if i > 0 {
      var q, e := qs[i - 1], es[i - 1];
      assert StepAt(qs, es, i - 1);
      CollectedInOrder(n, ev, qs, es, i - 1);
      RunInv(n, ev, qs, es, i - 1);
      LogsGrow(q, e);
      if e.Reclaim? { NextUsedMeans(q); }
      var h', got', got := qs[i].h, Collected(qs, es, i), Collected(qs, es, i - 1);
      forall k: nat | k < h'.recl ensures CollectedAt(h', got', k) {
        if k < q.h.recl { assert CollectedAt(q.h, got, k); }
      }
    }
  }

  // ---- Which chains are live and which are in the device's hands, step by step ----

  lemma LiveStep(q: Sys, e: Event)
    requires Inv(q) && Enabled(q, e)
    ensures e.Reclaim? ==> q.h.recl < |q.h.order|
    ensures forall a: nat :: Live(Next(q, e).h, a) <==>
      || (Live(q.h, a) && !(e.Reclaim? && a == q.h.order[q.h.recl]))
      || (e.AddWrite? && a == |q.h.added|)
  {
    var q' := Next(q, e);
    if e.AddWrite? { AddStages(q.h, e.bufs, e.readable, e.cookie); }
    if e.Reclaim? { ReclaimStages(q.h); }
    if e.RetWrite? {
      assert DescPlace(q.h, e.head);
      forall a: nat ensures Live(q'.h, a) <==> Live(q.h, a) {}
    }
  }

  /** A held head is the first descriptor of its chain. */
  lemma HeldChain(q: Sys, head: nat)
    requires Inv(q) && Held(q.h, head)
    ensures var a := ChainOf(q.h, head);
      && Live(q.h, a) && a < q.h.taken
      && |q.h.added[a].idxs| > 0 && q.h.added[a].idxs[0] == head
      && ChainOk(q.ring.desc, q.drv.descx, q.h.added[a])
  {
    assert DescPlace(q.h, head);
  }

  /** The chain the device takes next has not been returned. */
  lemma NextIsPending(q: Sys)
    requires Inv(q) && q.h.taken < q.h.pub
    ensures q.h.taken < |q.h.added| && |q.h.added[q.h.taken].idxs| > 0
    ensures var head := q.h.added[q.h.taken].idxs[0];
      && head < |q.h.place| && q.h.place[head] == In(q.h.taken, 0)
      && q.h.taken < |q.h.stage| && q.h.stage[q.h.taken].Pending?
  {
    NextAvailMeans(q);
    assert ChainPlaces(q.h, q.h.taken) && ChainPlace(q.h, q.h.taken, 0);
    assert StageAt(q.h, q.h.taken);
    assert q.h.stage[q.h.taken].Returned? ==> ReturnedAt(q.h, q.h.stage[q.h.taken].k);
  }

  lemma HeldStep(q: Sys, e: Event)
    requires Inv(q) && Enabled(q, e)
    ensures e.Take? ==> q.h.taken < |q.h.added| && |q.h.added[q.h.taken].idxs| > 0
    ensures forall head: nat :: Held(Next(q, e).h, head) <==>
      || (Held(q.h, head) && !(e.RetWrite? && head == e.head))
      || (e.Take? && head == q.h.added[q.h.taken].idxs[0])
    ensures forall head: nat :: Held(q.h, head) && Held(Next(q, e).h, head) ==>
      ChainOf(Next(q, e).h, head) == ChainOf(q.h, head)
    ensures e.Take? ==> ChainOf(Next(q, e).h, q.h.added[q.h.taken].idxs[0]) == q.h.taken
  {
    var q' := Next(q, e);
    if e.Take? { NextIsPending(q); }
    if e.Reclaim? { assert ReturnedAt(q.h, q.h.recl); }
    if e.RetWrite? { HeldChain(q, e.head); }
    forall head: nat
      ensures Held(q'.h, head) <==>
        || (Held(q.h, head) && !(e.RetWrite? && head == e.head))
        || (e.Take? && head == q.h.added[q.h.taken].idxs[0])
    {
      if head < |q.h.place| { assert DescPlace(q.h, head); }
    }
  }
}
