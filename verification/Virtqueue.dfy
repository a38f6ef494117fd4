/** The virtqueue operations in place: arrays and fields updated by loops and assignments, each
    method shown to take the steps of the state machine in QueueState. */
module Virtqueue {
  import opened Bits
  import opened Counting
  import opened QueueState
  import opened QueueInvariant
  import opened QueueTheorems

  const VQUEUE_SUCCESS: int := 0
  const ERROR_VRING_NO_BUFF: int := -3007

  /** Ring memory, zeroed as the master does before it creates its queues. */
  class Vring {
    const n: nat
    const desc: array<Desc>
    const availRing: array<nat>
    const usedRing: array<UsedElem>
    var availIdx: nat
    var noInterrupt: bool
    var usedEvent: nat
    var usedIdx: nat
    var noNotify: bool
    var availEvent: nat

    ghost predicate Valid() {
      desc.Length == availRing.Length == usedRing.Length == n
    }

    ghost function View(): Ring
      reads this, desc, availRing, usedRing
    {
      Ring(desc[..], availIdx, availRing[..], noInterrupt, usedEvent, usedIdx, usedRing[..], noNotify, availEvent)
    }

    constructor (n: nat)
      ensures this.n == n && Valid() && fresh(desc) && fresh(availRing) && fresh(usedRing)
      ensures View() == InitRing(n).(desc := seq(n, i => Desc(0, 0, 0, 0)))
    {
      this.n := n;
      desc := new Desc[n](i => Desc(0, 0, 0, 0));
      availRing := new nat[n](i => 0);
      usedRing := new UsedElem[n](i => NO_USED);
      availIdx, noInterrupt, usedEvent, usedIdx, noNotify, availEvent := 0, false, 0, 0, false, 0;
    }
  }

  datatype Role = Master | Slave

  class Virtqueue {
    const ring: Vring
    const role: Role
    const eventIdx: bool
    const descx: array<Extra>
    var freeCnt: nat
    var head: nat
    var usedCons: nat
    var availCons: nat
    var queued: nat
    /** Number of times the notify callback was called. */
    var notified: nat

    ghost predicate Valid() {
      ring.Valid() && descx.Length == ring.n
    }

    /** The objects that make up this side of the queue and the ring. */
    ghost function Footprint(): set<object> {
      {this, descx, ring, ring.desc, ring.availRing, ring.usedRing}
    }

    ghost function DriverView(): Driver
      reads this, descx
    {
      Driver(freeCnt, head, usedCons, queued, descx[..])
    }

    ghost function DeviceView(): Device
      reads this
    {
      Device(availCons, queued)
    }

    /** This object and its ring are one side of the system state q, which is reachable. */
    ghost predicate Matches(q: Sys)
      reads this, descx, ring, ring.desc, ring.availRing, ring.usedRing
    {
      && Valid()
      && q.n == ring.n && q.eventIdx == eventIdx && q.ring == ring.View()
      && (role.Master? ==> q.drv == DriverView())
      && (role.Slave? ==> q.dev == DeviceView())
    }

    /** virtqueue_create with vq_ring_init: the master threads the free list through the table. */
    constructor (ring: Vring, role: Role, eventIdx: bool)
      requires ring.Valid() && RingSize(ring.n)
      requires role.Master? ==> ring.View() == InitRing(ring.n).(desc := seq(ring.n, i => Desc(0, 0, 0, 0)))
      modifies ring.desc
      ensures this.ring == ring && this.role == role && this.eventIdx == eventIdx && fresh(descx) && notified == 0
      ensures Valid() && DeviceView() == Device(0, 0)
      ensures role.Master? ==> ring.View() == InitRing(ring.n) && Matches(Init(ring.n, eventIdx))
      ensures role.Master? ==> head == 0 && freeCnt == ring.n && usedCons == queued == 0
      ensures role.Master? ==> forall i :: 0 <= i < ring.n ==>
        ring.desc[i] == Desc(0, 0, 0, if i + 1 < ring.n then i + 1 else 32768)
      ensures role.Slave? ==> ring.View() == old(ring.View())
    {
      this.ring, this.role, this.eventIdx := ring, role, eventIdx;
      descx := new Extra[ring.n](i => NO_EXTRA);
      freeCnt, head, usedCons, availCons, queued, notified := ring.n, 0, 0, 0, 0, 0;
      new;
      if role.Master? {
        RingSizeFacts(ring.n);
        var i := 0;
        while i < ring.n - 1
          invariant 0 <= i <= ring.n - 1
          invariant forall j :: 0 <= j < i ==> ring.desc[j] == Desc(0, 0, 0, j + 1)
          invariant forall j :: i <= j < ring.n ==> ring.desc[j] == Desc(0, 0, 0, 0)
          modifies ring.desc
        {
          ring.desc[i] := ring.desc[i].(next := i + 1);
          i := i + 1;
        }
        ring.desc[i] := ring.desc[i].(next := CHAIN_END);
        assert ring.desc[..] == InitDesc(ring.n);
        assert descx[..] == InitDriver(ring.n).descx;
      }
    }

    /** vq_ring_add_buffer. */
    method RingAddBuffer(headIdx: nat, bufs: seq<Buf>, readable: nat, ghost free: seq<nat>) returns (idx: nat)
      requires Valid() && Linked(ring.desc[..], free) && headIdx == At(free, 0, CHAIN_END) && |bufs| <= |free|
      requires Distinct(free)
      modifies ring.desc
      ensures (ring.desc[..], idx) == Fill(old(ring.desc[..]), headIdx, bufs, readable, 0)
      ensures Describes(ring.desc[..], free, bufs, readable)
    {
      FillWrites(ring.desc[..], free, bufs, readable);
      var i := 0;
      idx := headIdx;
      while i < |bufs|
        invariant 0 <= i <= |bufs| && idx == At(free, i, CHAIN_END)
        invariant Linked(ring.desc[..], free)
        invariant Fill(ring.desc[..], idx, bufs, readable, i) == Fill(old(ring.desc[..]), headIdx, bufs, readable, 0)
      {
        assert FreeLink(ring.desc[..], free, i);
        ghost var before := ring.desc[..];
        var flags: bv16 := 0;
        if i < |bufs| - 1 { flags := flags | F_NEXT; }
        if i >= readable { flags := flags | F_WRITE; }
        ring.desc[idx] := Desc(bufs[i].addr, bufs[i].len, flags, ring.desc[idx].next);
        assert ring.desc[..] == Put(before, idx, Desc(bufs[i].addr, bufs[i].len, ChainFlags(i, |bufs|, readable),
                                                      before[idx].next));
        LinksKept(before, ring.desc[..], free);
        idx, i := ring.desc[idx].next, i + 1;
      }
    }

    /** The updates of virtqueue_add_buffer, up to and including vq_ring_update_avail. */
    method AddInPlace(bufs: seq<Buf>, readable: nat, cookie: nat, ghost free: seq<nat>)
      requires Valid() && Linked(ring.desc[..], free) && 1 <= |bufs| <= |free| && |bufs| <= freeCnt
      requires head == free[0] < ring.n && Slot(ring.availIdx, ring.n) < ring.n && Distinct(free)
      modifies this, descx, ring, ring.desc, ring.availRing
      ensures var (desc, idx) := Fill(old(ring.desc[..]), old(head), bufs, readable, 0);
        && ring.View() == old(ring.View()).(desc := desc, availIdx := U16(old(ring.availIdx) + 1),
                            availRing := Put(old(ring.availRing[..]), Slot(old(ring.availIdx), ring.n), old(head)))
        && DriverView() == old(DriverView()).(descx := Put(old(descx[..]), old(head), Extra(cookie, |bufs|)),
                                              head := idx,
                            freeCnt := old(freeCnt) - |bufs|, queued := U16(old(queued) + 1))
      ensures Describes(ring.desc[..], free, bufs, readable)
      ensures notified == old(notified) && availCons == old(availCons)
    {
      var headIdx := head;
      descx[headIdx] := Extra(cookie, |bufs|);
      var idx := RingAddBuffer(headIdx, bufs, readable, free);
      head := idx;
      freeCnt := freeCnt - |bufs|;
      assert descx[..] == Put(old(descx[..]), headIdx, Extra(cookie, |bufs|));
      UpdateAvail(headIdx);
    }

    /** virtqueue_add_buffer. */
    method AddBuffer(bufs: seq<Buf>, readable: nat, cookie: nat, ghost q: Sys) returns (status: int)
      requires Matches(q) && Inv(q) && role.Master? && Enabled(q, AddWrite(bufs, readable, cookie))
      modifies this, descx, ring, ring.desc, ring.availRing
      ensures status == VQUEUE_SUCCESS
      ensures Matches(Next(Next(q, AddWrite(bufs, readable, cookie)), AddBump))
      ensures |bufs| <= |q.h.free| && Describes(ring.desc[..], q.h.free, bufs, readable)
      ensures notified == old(notified) && availCons == old(availCons)
    {
      AddFacts(q, |bufs|);
      ghost var (desc, idx) := Fill(q.ring.desc, q.drv.head, bufs, readable, 0);
      AddEffect(q, bufs, readable, cookie, desc, idx);
      AddInPlace(bufs, readable, cookie, q.h.free);
      status := VQUEUE_SUCCESS;
    }

    /** vq_ring_update_avail: the head goes into the next slot, then the index is bumped. */
    method UpdateAvail(descIdx: nat)
      requires Valid() && 1 <= ring.n && Slot(ring.availIdx, ring.n) < ring.n
      modifies this`queued, ring`availIdx, ring.availRing
      ensures ring.View() == old(ring.View()).(
                availRing := Put(old(ring.availRing[..]), Slot(old(ring.availIdx), ring.n), descIdx),
                availIdx := U16(old(ring.availIdx) + 1))
      ensures queued == U16(old(queued) + 1)
    {
      var slot := Slot(ring.availIdx, ring.n);
      ring.availRing[slot] := descIdx;
      ring.availIdx := U16(ring.availIdx + 1);
      queued := U16(queued + 1);
    }

    /** The link-following loop of vq_ring_free_chain: the last descriptor and the links followed. */
    method LastOfChain(descIdx: nat, ghost c: Chain) returns (dp: nat, links: nat)
      requires Valid() && ChainOk(ring.desc[..], descx[..], c) && descIdx == c.idxs[0]
      ensures (dp, links) == (c.idxs[|c.idxs| - 1], |c.idxs| - 1) == ChainTail(ring.desc[..], descIdx)
      ensures dp < ring.n
    {
      TailMeans(ring.desc[..], descx[..], c);
      assert LinkOk(ring.desc[..], c, 0);
      FlagBits(0, |c.bufs|, c.readable);
      dp, links := descIdx, 0;
      if ring.desc[dp].flags & F_INDIRECT == 0 {
        while ring.desc[dp].flags & F_NEXT != 0
          invariant links < |c.idxs| && dp == c.idxs[links] < ring.n
          invariant LinkOk(ring.desc[..], c, links)
          decreases |c.idxs| - links
        {
          FlagBits(links, |c.bufs|, c.readable);
          dp, links := ring.desc[dp].next, links + 1;
          assert LinkOk(ring.desc[..], c, links);
        }
        FlagBits(links, |c.bufs|, c.readable);
      }
    }

    /** vq_ring_free_chain. */
    method FreeChainInPlace(descIdx: nat, ghost c: Chain)
      requires Valid() && ChainOk(ring.desc[..], descx[..], c) && descIdx == c.idxs[0]
      modifies this`freeCnt, this`head, descx, ring.desc
      ensures (ring.View(), DriverView()) == FreeChain(old(ring.View()), old(DriverView()), descIdx)
    {
      ghost var r, d := ring.View(), DriverView();
      freeCnt := freeCnt + descx[descIdx].ndescs;
      var dp, links := LastOfChain(descIdx, c);
      descx[descIdx] := Extra(descx[descIdx].cookie, U16(descx[descIdx].ndescs - 1 - links));
      ring.desc[dp] := ring.desc[dp].(next := head);
      head := descIdx;
      assert descx[..] == FreeChain(r, d, descIdx).1.descx;
      assert ring.desc[..] == FreeChain(r, d, descIdx).0.desc;
    }

    /** The updates of virtqueue_get_buffer once the used ring is known to hold something new. */
    method CollectInPlace(ghost c: Chain) returns (cookie: nat, len: nat, idx: nat)
      requires Valid() && 1 <= ring.n && Slot(usedCons, ring.n) < ring.n && ChainOk(ring.desc[..], descx[..], c)
      requires U16(ring.usedRing[Slot(usedCons, ring.n)].id) == c.idxs[0]
      modifies this, descx, ring.desc
      ensures (ring.View(), DriverView()) == GetUsed(old(ring.View()), old(DriverView()))
      ensures cookie == UsedCookie(old(ring.View()), old(DriverView()))
      ensures len == NextUsed(old(ring.View()), old(DriverView())).len && idx == Slot(old(usedCons), ring.n)
      ensures notified == old(notified) && availCons == old(availCons)
    {
      ghost var r, d := ring.View(), DriverView();
      assert LinkOk(ring.desc[..], c, 0);
      idx := Slot(usedCons, ring.n);
      usedCons := U16(usedCons + 1);
      var uep := ring.usedRing[idx];
      var descIdx := U16(uep.id);
      len := uep.len;
      FreeChainInPlace(descIdx, c);
      ghost var d' := FreeChain(r, d, descIdx).1;
      assert DriverView() == d'.(usedCons := usedCons);
      cookie := descx[descIdx].cookie;
      descx[descIdx] := descx[descIdx].(cookie := NULL);
      assert descx[..] == Put(d'.descx, descIdx, d'.descx[descIdx].(cookie := NULL));
    }

    /** virtqueue_get_buffer: NULL when the used ring holds nothing new, otherwise the cookie and
        length of the oldest returned chain. */
    method GetBuffer(ghost q: Sys) returns (cookie: nat, len: nat, idx: nat)
      requires Matches(q) && Inv(q) && role.Master? && q.dpc.DIdle?
      modifies this, descx, ring.desc
      ensures q.h.recl == q.h.ret ==> cookie == NULL && Matches(Next(q, UsedLook))
      ensures q.h.recl < q.h.ret ==>
        && Done(DoneAt(q.h, q.h.recl).chain, len) == DoneAt(q.h, q.h.recl)
        && cookie == DoneAt(q.h, q.h.recl).chain.cookie != NULL
        && idx == q.h.recl % q.n
        && Matches(Next(Next(q, UsedLook), Reclaim))
      ensures notified == old(notified) && availCons == old(availCons)
    {
      IndicesExact(q);
      if usedCons == ring.usedIdx {
        return NULL, 0, 0;
      }
      CollectFacts(q);
      CollectEffect(q);
      cookie, len, idx := CollectInPlace(DoneAt(q.h, q.h.recl).chain);
    }

    /** The updates of virtqueue_get_available_buffer once the available ring is known to hold
        something new. */
    method TakeInPlace() returns (addr: nat, headIdx: nat, len: nat)
      requires Valid() && 1 <= ring.n && Slot(availCons, ring.n) < ring.n &&
        ring.availRing[Slot(availCons, ring.n)] < ring.n
      modifies this`availCons
      ensures availCons == U16(old(availCons) + 1)
      ensures headIdx == ring.availRing[Slot(old(availCons), ring.n)]
      ensures addr == ring.desc[headIdx].addr && len == ring.desc[headIdx].len
    {
      var slot := Slot(availCons, ring.n);
      availCons := U16(availCons + 1);
      headIdx := ring.availRing[slot];
      addr, len := ring.desc[headIdx].addr, ring.desc[headIdx].len;
    }

    /** virtqueue_get_available_buffer: no buffer when the available ring holds nothing new. */
    method GetAvailableBuffer(ghost q: Sys) returns (found: bool, addr: nat, headIdx: nat, len: nat)
      requires Matches(q) && Inv(q) && role.Slave? && q.vpc.VIdle?
      modifies this`availCons
      ensures found <==> q.h.taken < q.h.pub
      ensures !found ==> Matches(Next(q, AvailLook))
      ensures found ==>
        && |q.h.added[q.h.taken].idxs| == |q.h.added[q.h.taken].bufs| > 0
        && headIdx == q.h.added[q.h.taken].idxs[0]
        && Buf(addr, len) == q.h.added[q.h.taken].bufs[0]
        && Matches(Next(Next(q, AvailLook), Take))
        && Held(Next(Next(q, AvailLook), Take).h, headIdx)
    {
      IndicesExact(q);
      Window(q);
      if availCons == ring.availIdx {
        return false, 0, 0, 0;
      }
      TakeFacts(q);
      TakeEffect(q);
      addr, headIdx, len := TakeInPlace();
      found := true;
    }

    /** virtqueue_add_consumed_buffer. The test is `>`: an index equal to n passes it and is published,
        but no held head has it. */
    method AddConsumedBuffer(headIdx: nat, len: nat, ghost q: Sys) returns (status: int)
      requires Matches(q) && Inv(q) && role.Slave? && q.vpc.VIdle?
      modifies this`queued, ring`usedIdx, ring.usedRing
      ensures headIdx > q.n ==> status == ERROR_VRING_NO_BUFF && Matches(q)
      ensures headIdx <= q.n ==> status == VQUEUE_SUCCESS && Matches(Next(Next(q, RetWrite(headIdx, len)), RetBump))
    {
      if headIdx > ring.n {
        return ERROR_VRING_NO_BUFF;
      }
      SlotsExact(q);
      var slot := Slot(ring.usedIdx, ring.n);
      ring.usedRing[slot] := UsedElem(headIdx, len);
      ring.usedIdx := U16(ring.usedIdx + 1);
      queued := U16(queued + 1);
      assert ring.usedRing[..] == Next(q, RetWrite(headIdx, len)).ring.usedRing;
      status := VQUEUE_SUCCESS;
    }

    /** virtqueue_get_desc_size: the length of the next available buffer, 0 if there is none. */
    method GetDescSize(ghost q: Sys) returns (len: nat)
      requires Matches(q) && Inv(q) && role.Slave?
      ensures q.h.taken == q.h.pub ==> len == 0
      ensures q.h.taken < q.h.pub ==>
        |q.h.added[q.h.taken].bufs| > 0 && len == q.h.added[q.h.taken].bufs[0].len
    {
      IndicesExact(q);
      if availCons == ring.availIdx {
        return 0;
      }
      NextAvailMeans(q);
      assert LinkOk(q.ring.desc, q.h.added[q.h.taken], 0);
      SlotsExact(q);
      var slot := Slot(availCons, ring.n);
      len := ring.desc[ring.availRing[slot]].len;
    }

    /** vq_ring_must_notify. */
    function MustNotify(): bool
      reads this, ring
    {
      if eventIdx then
        if role.Master? then
          NeedEvent(ring.availEvent, ring.availIdx, U16(ring.availIdx - queued))
        else
          NeedEvent(ring.usedEvent, ring.usedIdx, U16(ring.usedIdx - queued))
      else if role.Master? then !ring.noNotify
      else !ring.noInterrupt
    }

    /** virtqueue_kick. */
    method Kick(ghost q: Sys)
      requires Matches(q)
      modifies this`queued, this`notified
      ensures role.Master? ==> Matches(Next(q, DriverKick))
      ensures role.Slave? ==> Matches(Next(q, DeviceKick))
      ensures role.Master? ==> notified == old(notified) + (if DriverMustNotify(q.eventIdx, q.ring, q.drv) then 1
        else 0)
      ensures role.Slave? ==> notified == old(notified) + (if DeviceMustNotify(q.eventIdx, q.ring, q.dev) then 1 else 0)
    {
      if MustNotify() {
        notified := notified + 1;
      }
      queued := 0;
    }

    /** virtqueue_enable_cb: write the event index or clear the flag, then look again. */
    method EnableCb(ghost q: Sys) returns (pending: int)
      requires Matches(q) && Inv(q)
      modifies ring`usedEvent, ring`availEvent, ring`noInterrupt, ring`noNotify
      ensures pending == 0 || pending == 1
      ensures role.Master? ==> Matches(Next(Next(q, DriverArm), DriverCheck)) && (pending == 1 <==> q.h.recl < q.h.ret)
      ensures role.Slave? ==> Matches(Next(Next(q, DeviceArm), DeviceCheck)) && (pending == 1 <==> q.h.taken < q.h.pub)
    {
      if eventIdx {
        if role.Master? { ring.usedEvent := usedCons; } else { ring.availEvent := availCons; }
      } else {
        if role.Master? { ring.noInterrupt := false; } else { ring.noNotify := false; }
      }
      IndicesExact(q);
      Window(q);
      var n := if role.Master? then U16(ring.usedIdx - usedCons) else U16(ring.availIdx - availCons);
      pending := if n > 0 then 1 else 0;
    }

    /** virtqueue_disable_cb. */
    method DisableCb(ghost q: Sys)
      requires Matches(q)
      modifies ring`usedEvent, ring`availEvent, ring`noInterrupt, ring`noNotify
      ensures role.Master? ==> Matches(Next(q, DriverDisarm))
      ensures role.Slave? ==> Matches(Next(q, DeviceDisarm))
    {
      if eventIdx {
        if role.Master? {
          ring.usedEvent := U16(usedCons - ring.n - 1);
        } else {
          ring.availEvent := U16(availCons - ring.n - 1);
        }
      } else {
        if role.Master? { ring.noInterrupt := true; } else { ring.noNotify := true; }
      }
    }
  }

  /** The ring and the driver after both steps of an add, written out. */
  lemma AddEffect(q: Sys, bufs: seq<Buf>, readable: nat, cookie: nat, desc: seq<Desc>, idx: nat)
    requires Shape(q) && |bufs| <= q.drv.freeCnt
    requires (desc, idx) == Fill(q.ring.desc, q.drv.head, bufs, readable, 0)
    ensures var q' := Next(Next(q, AddWrite(bufs, readable, cookie)), AddBump);
      && q'.n == q.n && q'.eventIdx == q.eventIdx
      && q'.ring == q.ring.(desc := desc, availIdx := U16(q.ring.availIdx + 1),
                            availRing := Put(q.ring.availRing, Slot(q.ring.availIdx, q.n), q.drv.head))
      && q'.drv == q.drv.(descx := Put(q.drv.descx, q.drv.head, Extra(cookie, |bufs|)), head := idx,
                          freeCnt := q.drv.freeCnt - |bufs|, queued := U16(q.drv.queued + 1))
  {}

  lemma AddFacts(q: Sys, k: nat)
    requires Inv(q) && 1 <= k <= q.drv.freeCnt
    ensures Linked(q.ring.desc, q.h.free) && q.drv.freeCnt == |q.h.free| && q.drv.head == q.h.free[0] < q.n
    ensures Slot(q.ring.availIdx, q.n) < q.n && Distinct(q.h.free)
  {
    InBounds(q);
    SlotsExact(q);
    FreeDistinct(q.h);
  }

  /** Buffer j is in the j-th descriptor of the list: its address and length, flags that say whether
      another follows and whether the device may write it, and the link to the next in the list. */
  ghost predicate Describes(desc: seq<Desc>, free: seq<nat>, bufs: seq<Buf>, readable: nat)
    requires |bufs| <= |free|
  {
    forall j: nat :: j < |bufs| ==> DescribesAt(desc, free, bufs, readable, j)
  }

  ghost predicate DescribesAt(desc: seq<Desc>, free: seq<nat>, bufs: seq<Buf>, readable: nat, j: nat)
    requires j < |bufs| <= |free|
  {
    && free[j] < |desc|
    && Buf(desc[free[j]].addr, desc[free[j]].len) == bufs[j]
    && FlagsOf(desc[free[j]].flags, j, |bufs|, readable)
    && desc[free[j]].next == At(free, j + 1, CHAIN_END)
  }

  lemma FillWrites(desc: seq<Desc>, free: seq<nat>, bufs: seq<Buf>, readable: nat)
    requires Linked(desc, free) && Distinct(free) && |bufs| <= |free|
    ensures Describes(Fill(desc, At(free, 0, CHAIN_END), bufs, readable, 0).0, free, bufs, readable)
  {
    var desc' := Fill(desc, At(free, 0, CHAIN_END), bufs, readable, 0).0;
    FillMeans(desc, free, bufs, readable);
    forall j: nat | j < |bufs| ensures DescribesAt(desc', free, bufs, readable, j) {
      assert FilledAt(desc, desc', free, bufs, readable, j) && FreeLink(desc, free, j);
      assert FlagsOf(At(desc', free[j], NO_DESC).flags, j, |bufs|, readable);
    }
  }

  lemma CollectFacts(q: Sys)
    requires Inv(q) && q.h.recl < q.h.ret
    ensures var c := DoneAt(q.h, q.h.recl).chain;
      && Slot(q.drv.usedCons, q.n) == q.h.recl % q.n < q.n && ChainOk(q.ring.desc, q.drv.descx, c)
      && c.cookie == UsedCookie(q.ring, q.drv) != NULL
      && NextUsed(q.ring, q.drv).len == DoneAt(q.h, q.h.recl).len
      && U16(q.ring.usedRing[Slot(q.drv.usedCons, q.n)].id) == c.idxs[0]
  {
    SlotsExact(q);
    NextUsedMeans(q);
  }

  lemma CollectEffect(q: Sys)
    requires q.drv.usedCons != q.ring.usedIdx
    ensures var q' := Next(Next(q, UsedLook), Reclaim);
      q'.n == q.n && q'.eventIdx == q.eventIdx && (q'.ring, q'.drv) == GetUsed(q.ring, q.drv)
  {}

  lemma LinksKept(before: seq<Desc>, after: seq<Desc>, free: seq<nat>)
    requires Linked(before, free) && |before| == |after|
    requires forall d :: 0 <= d < |before| ==> after[d].next == before[d].next
    ensures Linked(after, free)
  {
    forall p: nat | p < |free| ensures FreeLink(after, free, p) { assert FreeLink(before, free, p); }
  }

  lemma TakeFacts(q: Sys)
    requires Inv(q) && q.h.taken < q.h.pub
    ensures Slot(q.dev.availCons, q.n) < q.n
    ensures var c, head := q.h.added[q.h.taken], q.ring.availRing[Slot(q.dev.availCons, q.n)];
      && |c.idxs| == |c.bufs| > 0 && head == c.idxs[0] < q.n
      && Buf(q.ring.desc[head].addr, q.ring.desc[head].len) == c.bufs[0]
      && Held(q.h.(taken := q.h.taken + 1), head)
  {
    SlotsExact(q);
    DeviceReadsFront(q);
    assert Abs(q).offered[0] == q.h.added[q.h.taken];
    NextIsPending(q);
  }

  lemma TakeEffect(q: Sys)
    requires q.dev.availCons != q.ring.availIdx
    ensures var q' := Next(Next(q, AvailLook), Take);
      && q' == q.(dev := TakeAvail(q.dev), vpc := VIdle, h := q.h.(taken := q.h.taken + 1))
  {}
}
