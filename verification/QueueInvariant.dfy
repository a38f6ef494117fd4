/** What every step of the virtqueue protocol keeps, and what follows for whole runs. */
module QueueInvariant {
  import opened Bits
  import opened Counting
  import opened QueueState

  /** Added (or being added) and not yet reclaimed. */
  ghost predicate Live(h: History, a: nat) {
    && a < |h.added|
    && a < |h.stage|
    && !(h.stage[a].Returned? && h.stage[a].k < h.recl)
  }

  ghost predicate Shape(q: Sys) {
    && RingSize(q.n)
    && 1 <= q.n <= 32768
    && |q.ring.desc| == |q.ring.availRing| == |q.ring.usedRing| == |q.drv.descx| == |q.h.place| == q.n
  }

  /** The 16-bit indices are the unbounded counters, wrapped; a program counter in the middle
      of a publish has written one entry more than it has announced. */
  ghost predicate Counters(q: Sys) {
    && q.ring.availIdx == U16(q.h.pub)
    && q.ring.usedIdx == U16(q.h.ret)
    && q.drv.usedCons == U16(q.h.recl)
    && q.dev.availCons == U16(q.h.taken)
    && |q.h.added| == q.h.pub + (if q.dpc.Publishing? then 1 else 0)
    && |q.h.order| == q.h.ret + (if q.vpc.Returning? then 1 else 0)
    && q.h.taken <= q.h.pub
    && q.h.recl <= q.h.ret
    && (q.vpc.Taking? ==> q.h.taken < q.h.pub)
    && (q.dpc.Reclaiming? ==> q.h.recl < q.h.ret)
  }

  /** The k-th returned chain was taken before, and is the k-th returned only. */
  ghost predicate ReturnedAt(h: History, k: nat) {
    && k < |h.order|
    && h.order[k] < h.taken
    && h.order[k] < |h.stage|
    && h.stage[h.order[k]] == Returned(k)
  }

  ghost predicate StageAt(h: History, a: nat) {
    && a < |h.stage|
    && (h.stage[a].Returned? ==> h.stage[a].k < |h.order| && h.order[h.stage[a].k] == a)
  }

  ghost predicate Stages(h: History) {
    && |h.stage| == |h.added|
    && |h.lens| == |h.order|
    && (forall k: nat :: k < |h.order| ==> ReturnedAt(h, k))
    && (forall a: nat :: a < |h.stage| ==> StageAt(h, a))
  }

  /** The free descriptor at position p is linked to the one at position p + 1. */
  ghost predicate FreeLink(desc: seq<Desc>, free: seq<nat>, p: nat) {
    && p < |free|
    && free[p] < |desc|
    && desc[free[p]].next == At(free, p + 1, CHAIN_END)
  }

  ghost predicate Linked(desc: seq<Desc>, free: seq<nat>) {
    forall p: nat :: p < |free| ==> FreeLink(desc, free, p)
  }

  ghost predicate ListFrom(desc: seq<Desc>, head: nat, free: seq<nat>) {
    head == At(free, 0, CHAIN_END) && Linked(desc, free)
  }

  /** Descriptor j of a chain holds what the driver wrote for buffer j. */
  ghost predicate LinkOk(desc: seq<Desc>, c: Chain, j: nat)
    requires |c.idxs| == |c.bufs|
  {
    && j < |c.idxs|
    && c.idxs[j] < |desc|
    && desc[c.idxs[j]].addr == c.bufs[j].addr
    && desc[c.idxs[j]].len == c.bufs[j].len
    && desc[c.idxs[j]].flags == ChainFlags(j, |c.bufs|, c.readable)
    && (j + 1 < |c.idxs| ==> desc[c.idxs[j]].next == c.idxs[j + 1])
  }

  ghost predicate ChainOk(desc: seq<Desc>, descx: seq<Extra>, c: Chain) {
    && 1 <= |c.idxs| == |c.bufs| <= |desc|
    && c.idxs[0] < |descx|
    && descx[c.idxs[0]] == Extra(c.cookie, |c.bufs|)
    && c.cookie != NULL
    && (forall j: nat :: j < |c.idxs| ==> LinkOk(desc, c, j))
  }

  ghost predicate Chains(q: Sys) {
    forall a: nat :: Live(q.h, a) ==> ChainOk(q.ring.desc, q.drv.descx, q.h.added[a])
  }

  /** `place` and the lists are inverse to each other, so the free list and the live chains
      share no descriptor and together contain every one. */
  ghost predicate DescPlace(h: History, d: nat) {
    && d < |h.place|
    && match h.place[d]
       case Free(p) => p < |h.free| && h.free[p] == d
       case In(a, p) => Live(h, a) && p < |h.added[a].idxs| && h.added[a].idxs[p] == d
  }

  ghost predicate FreePlace(h: History, p: nat) {
    p < |h.free| && h.free[p] < |h.place| && h.place[h.free[p]] == Free(p)
  }

  ghost predicate ChainPlace(h: History, a: nat, p: nat) {
    && a < |h.added|
    && p < |h.added[a].idxs|
    && h.added[a].idxs[p] < |h.place|
    && h.place[h.added[a].idxs[p]] == In(a, p)
  }

  ghost predicate ChainPlaces(h: History, a: nat)
    requires a < |h.added|
  {
    forall p: nat :: p < |h.added[a].idxs| ==> ChainPlace(h, a, p)
  }

  ghost predicate Places(h: History) {
    && (forall d: nat :: d < |h.place| ==> DescPlace(h, d))
    && (forall p: nat :: p < |h.free| ==> FreePlace(h, p))
    && (forall a: nat :: Live(h, a) ==> ChainPlaces(h, a))
  }

  ghost predicate AvailSlot(q: Sys, k: nat)
    requires Shape(q)
  {
    && k < |q.h.added|
    && |q.h.added[k].idxs| > 0
    && q.ring.availRing[k % q.n] == q.h.added[k].idxs[0]
  }

  ghost predicate UsedSlot(q: Sys, k: nat)
    requires Shape(q)
  {
    && k < |q.h.order| == |q.h.lens|
    && q.h.order[k] < |q.h.added|
    && |q.h.added[q.h.order[k]].idxs| > 0
    && q.ring.usedRing[k % q.n] == UsedElem(q.h.added[q.h.order[k]].idxs[0], q.h.lens[k])
  }

  ghost predicate Slots(q: Sys)
    requires Shape(q)
  {
    && (forall k: nat :: q.h.taken <= k < |q.h.added| ==> AvailSlot(q, k))
    && (forall k: nat :: q.h.recl <= k < |q.h.order| ==> UsedSlot(q, k))
  }

  ghost predicate FreeListOk(q: Sys) {
    ListFrom(q.ring.desc, q.drv.head, q.h.free) && q.drv.freeCnt == |q.h.free|
  }

  ghost predicate Inv(q: Sys) {
    && Shape(q)
    && Counters(q)
    && Stages(q.h)
    && FreeListOk(q)
    && Chains(q)
    && Places(q.h)
    && Slots(q)
  }

  // ---- The window of outstanding indices ----

  ghost function LiveSet(h: History): set<nat> {
    set a: nat | a < |h.added| && Live(h, a)
  }

  lemma OrderDistinct(h: History)
    requires Stages(h)
    ensures Distinct(h.order)
  {
    forall i, j | 0 <= i < j < |h.order|
      ensures h.order[i] != h.order[j]
    {
      assert ReturnedAt(h, i) && ReturnedAt(h, j);
    }
  }

  lemma OrderBound(h: History)
    requires Stages(h)
    ensures |h.order| <= h.taken
  {
    OrderDistinct(h);
    forall i | 0 <= i < |h.order|
      ensures h.order[i] < h.taken
    {
      assert ReturnedAt(h, i);
    }
    Pigeonhole(h.order, h.taken);
  }

  /** As many chains are live as have been added and not reclaimed. */
  lemma LiveCount(h: History)
    requires Stages(h) && h.recl <= |h.order|
    ensures |LiveSet(h)| == |h.added| - h.recl
  {
    var gone := h.order[..h.recl];
    OrderDistinct(h);
    assert Distinct(gone);
    DistinctSize(gone);
    UptoSize(|h.added|);
    forall a | a in Upto(|h.added|)
      ensures a in LiveSet(h) + Elems(gone)
    {
      assert StageAt(h, a);
      if !Live(h, a) {
        assert gone[h.stage[a].k] == a;
      }
    }
    forall a | a in Elems(gone)
      ensures a in Upto(|h.added|) && a !in LiveSet(h)
    {
      var k :| 0 <= k < |gone| && gone[k] == a;
      assert ReturnedAt(h, k);
    }
    assert Upto(|h.added|) == LiveSet(h) + Elems(gone);
    assert LiveSet(h) !! Elems(gone);
  }

  /** Live chains have different heads, so there are at most n of them. */
  lemma LiveBound(q: Sys)
    requires Shape(q) && Chains(q) && Places(q.h)
    ensures |LiveSet(q.h)| <= q.n
  {
    var live := LiveSet(q.h);
    forall a | a in live
      ensures ChainOk(q.ring.desc, q.drv.descx, q.h.added[a]) && ChainPlaces(q.h, a) && ChainPlace(q.h, a, 0)
    {
      assert Live(q.h, a);
    }
    var heads := map a | a in live :: q.h.added[a].idxs[0];
    ImageSize(live, heads);
    UptoSize(q.n);
    var image := Image(live, heads);
    forall x | x in image
      ensures x in Upto(q.n)
    {
      var a :| a in live && heads[a] == x;
    }
    SubsetSize(image, Upto(q.n));
  }

  /** Index window: reclaimed <= returned <= taken <= published <= reclaimed + n, in every state. */
  lemma Window(q: Sys)
    requires Inv(q)
    ensures q.h.recl <= q.h.ret <= |q.h.order| <= q.h.taken <= q.h.pub <= |q.h.added| <= q.h.recl + q.n
  {
    OrderBound(q.h);
    LiveCount(q.h);
    LiveBound(q);
  }

  // ---- Adding a chain ----

  /** The flags of descriptor p of a chain of m buffers, in the numbers of the VirtIO standard: bit 1
      exactly if another descriptor follows, bit 2 exactly if the device may write the buffer, which is
      so from the first one that is not readable on, and no other bit. */
  ghost predicate FlagsOf(flags: bv16, p: nat, m: nat, readable: nat) {
    (flags & 1 != 0 <==> p + 1 < m) && (flags & 2 != 0 <==> p >= readable) && flags & 0xFFFC == 0
  }

  /** The filling loop writes buffer j to the j-th free descriptor, keeps all links and every
      other descriptor, and ends at the first descriptor it has not used. */
  lemma FillMeans(desc: seq<Desc>, free: seq<nat>, bufs: seq<Buf>, readable: nat)
    requires Linked(desc, free) && Distinct(free) && |bufs| <= |free|
    ensures var (desc', idx) := Fill(desc, At(free, 0, CHAIN_END), bufs, readable, 0);
      && idx == At(free, |bufs|, CHAIN_END)
      && (forall j: nat :: j < |bufs| ==> FilledAt(desc, desc', free, bufs, readable, j))
      && (forall j: nat :: j < |bufs| ==> FlagsOf(At(desc', free[j], NO_DESC).flags, j, |bufs|, readable))
      && (forall d: nat :: d < |desc| && d !in free[..|bufs|] ==> desc'[d] == desc[d])
  {
    var desc' := Fill(desc, At(free, 0, CHAIN_END), bufs, readable, 0).0;
    FillEnds(desc, free, bufs, readable, 0);
    forall j: nat | j < |bufs| ensures FilledAt(desc, desc', free, bufs, readable, j) {
      FillHits(desc, free, bufs, readable, 0, j);
    }
    forall j: nat | j < |bufs| ensures FlagsOf(At(desc', free[j], NO_DESC).flags, j, |bufs|, readable) {
      assert FilledAt(desc, desc', free, bufs, readable, j);
      FlagBits(j, |bufs|, readable);
    }
    forall d: nat | d < |desc| && d !in free[..|bufs|] ensures desc'[d] == desc[d] {
      forall j | 0 <= j < |bufs| ensures free[j] != d { assert free[j] == free[..|bufs|][j]; }
      FillMisses(desc, free, bufs, readable, 0, d);
    }
  }

  /** One turn of the loop. */
  ghost function FillOne(desc: seq<Desc>, free: seq<nat>, bufs: seq<Buf>, readable: nat, i: nat): seq<Desc>
    requires Linked(desc, free) && i < |bufs| <= |free|
  {
    assert FreeLink(desc, free, i);
    desc[free[i] := Desc(bufs[i].addr, bufs[i].len, ChainFlags(i, |bufs|, readable), desc[free[i]].next)]
  }

  lemma FillOneLinked(desc: seq<Desc>, free: seq<nat>, bufs: seq<Buf>, readable: nat, i: nat)
    requires Linked(desc, free) && i < |bufs| <= |free|
    ensures free[i] < |desc|
    ensures Linked(FillOne(desc, free, bufs, readable, i), free)
    ensures Fill(desc, free[i], bufs, readable, i) ==
      Fill(FillOne(desc, free, bufs, readable, i), At(free, i + 1, CHAIN_END), bufs, readable, i + 1)
  {
    assert FreeLink(desc, free, i);
    var desc1 := FillOne(desc, free, bufs, readable, i);
    forall p: nat | p < |free| ensures FreeLink(desc1, free, p) { assert FreeLink(desc, free, p); }
  }

  lemma {:induction false} FillEnds(desc: seq<Desc>, free: seq<nat>, bufs: seq<Buf>, readable: nat, i: nat)
    requires Linked(desc, free) && i <= |bufs| <= |free|
    ensures Fill(desc, At(free, i, CHAIN_END), bufs, readable, i).1 == At(free, |bufs|, CHAIN_END)
    decreases |bufs| - i
  {
    if i < |bufs| {
      FillOneLinked(desc, free, bufs, readable, i);
      FillEnds(FillOne(desc, free, bufs, readable, i), free, bufs, readable, i + 1);
    }
  }

  lemma {:induction false} FillMisses(desc: seq<Desc>, free: seq<nat>, bufs: seq<Buf>, readable: nat, i: nat, d: nat)
    requires Linked(desc, free) && i <= |bufs| <= |free| && d < |desc|
    requires forall j :: i <= j < |bufs| ==> free[j] != d
    ensures Fill(desc, At(free, i, CHAIN_END), bufs, readable, i).0[d] == desc[d]
    decreases |bufs| - i
  {
    if i < |bufs| {
      FillOneLinked(desc, free, bufs, readable, i);
      FillMisses(FillOne(desc, free, bufs, readable, i), free, bufs, readable, i + 1, d);
    }
  }

  lemma {:induction false} FillHits(desc: seq<Desc>, free: seq<nat>, bufs: seq<Buf>, readable: nat, i: nat, j: nat)
    requires Linked(desc, free) && Distinct(free) && i <= j < |bufs| <= |free|
    ensures FilledAt(desc, Fill(desc, At(free, i, CHAIN_END), bufs, readable, i).0, free, bufs, readable, j)
    decreases |bufs| - i
  {
    FillOneLinked(desc, free, bufs, readable, i);
    var desc1 := FillOne(desc, free, bufs, readable, i);
    if i < j {
      FillHits(desc1, free, bufs, readable, i + 1, j);
    } else {
      FillMisses(desc1, free, bufs, readable, i + 1, free[i]);
    }
  }

  ghost predicate FilledAt(desc: seq<Desc>, desc': seq<Desc>, free: seq<nat>, bufs: seq<Buf>, readable: nat, j: nat)
    requires |desc'| == |desc|
  {
    && j < |bufs| && j < |free| && free[j] < |desc|
    && desc'[free[j]] == Desc(bufs[j].addr, bufs[j].len, ChainFlags(j, |bufs|, readable), desc[free[j]].next)
  }

  lemma FreeDistinct(h: History)
    requires Places(h)
    ensures Distinct(h.free)
  {
    forall i, j | 0 <= i < j < |h.free|
      ensures h.free[i] != h.free[j]
    {
      assert FreePlace(h, i) && FreePlace(h, j);
    }
  }

  lemma AddStages(h: History, bufs: seq<Buf>, readable: nat, cookie: nat)
    requires Stages(h) && |bufs| <= |h.free|
    ensures Stages(AddHistory(h, bufs, readable, cookie))
    ensures forall a: nat :: Live(AddHistory(h, bufs, readable, cookie), a) <==> Live(h, a) || a == |h.added|
  {
    var h' := AddHistory(h, bufs, readable, cookie);
    forall k: nat | k < |h'.order| ensures ReturnedAt(h', k) { assert ReturnedAt(h, k); }
    forall a: nat | a < |h'.stage| ensures StageAt(h', a) {
      if a < |h.added| { assert StageAt(h, a); }
    }
  }

  lemma AddPlaces(h: History, bufs: seq<Buf>, readable: nat, cookie: nat)
    requires Places(h) && Stages(h) && |bufs| <= |h.free|
    ensures Places(AddHistory(h, bufs, readable, cookie))
  {
    var h', k := AddHistory(h, bufs, readable, cookie), |bufs|;
    AddStages(h, bufs, readable, cookie);
    forall d: nat | d < |h'.place| ensures DescPlace(h', d) {
      assert DescPlace(h, d);
    }
    forall p: nat | p < |h'.free| ensures FreePlace(h', p) {
      assert FreePlace(h, p + k);
    }
    forall a: nat | Live(h', a) ensures ChainPlaces(h', a) {
      forall p: nat | p < |h'.added[a].idxs| ensures ChainPlace(h', a, p) {
        if a == |h.added| { assert FreePlace(h, p); } else { assert ChainPlaces(h, a) && ChainPlace(h, a, p); }
      }
    }
  }

  lemma AddWriteInv(q: Sys, e: Event)
    requires Inv(q) && Enabled(q, e) && e.AddWrite?
    ensures Inv(Next(q, e))
  {
    var q', a := Next(q, e), |q.h.added|;
    AddStages(q.h, e.bufs, e.readable, e.cookie);
    AddPlaces(q.h, e.bufs, e.readable, e.cookie);
    AddList(q, e);
    forall b: nat | Live(q'.h, b)
      ensures ChainOk(q'.ring.desc, q'.drv.descx, q'.h.added[b])
    {
      if b == a { AddNewChain(q, e); } else { AddKeepsChain(q, e, b); }
    }
    OrderBound(q.h);
    LiveCount(q'.h);
    LiveBound(q');
    AddSlots(q, e);
  }

  lemma AddSlots(q: Sys, e: Event)
    requires Inv(q) && Enabled(q, e) && e.AddWrite? && |q.h.added| < q.h.taken + q.n
    ensures Shape(Next(q, e)) && Slots(Next(q, e))
  {
    var q', a := Next(q, e), |q.h.added|;
    SlotOfCounter(q.h.pub, q.n);
    forall k: nat | q.h.taken <= k < |q'.h.added| ensures AvailSlot(q', k) {
      if k < a {
        assert AvailSlot(q, k);
        if k % q.n == a % q.n { SlotsDistinct(k, a, q.n); }
      }
    }
    forall k: nat | q.h.recl <= k < |q'.h.order| ensures UsedSlot(q', k) {
      assert UsedSlot(q, k);
    }
  }

  lemma AddList(q: Sys, e: Event)
    requires Inv(q) && Enabled(q, e) && e.AddWrite?
    ensures FreeListOk(Next(q, e))
  {
    FreeDistinct(q.h);
    FillRest(q.ring.desc, q.h.free, e.bufs, e.readable);
  }

  /** What the filling loop leaves is the rest of the free list. */
  lemma FillRest(desc: seq<Desc>, free: seq<nat>, bufs: seq<Buf>, readable: nat)
    requires Linked(desc, free) && Distinct(free) && |bufs| <= |free|
    ensures var (desc', idx) := Fill(desc, At(free, 0, CHAIN_END), bufs, readable, 0);
      ListFrom(desc', idx, free[|bufs|..])
  {
    var desc' := Fill(desc, At(free, 0, CHAIN_END), bufs, readable, 0).0;
    var k, rest := |bufs|, free[|bufs|..];
    FillEnds(desc, free, bufs, readable, 0);
    forall p: nat | p < |rest|
      ensures FreeLink(desc', rest, p)
    {
      assert FreeLink(desc, free, p + k);
      FillMisses(desc, free, bufs, readable, 0, free[p + k]);
    }
  }

  lemma AddNewChain(q: Sys, e: Event)
    requires Inv(q) && Enabled(q, e) && e.AddWrite?
    ensures ChainOk(Next(q, e).ring.desc, Next(q, e).drv.descx, Next(q, e).h.added[|q.h.added|])
  {
    var q', k := Next(q, e), |e.bufs|;
    FreeDistinct(q.h);
    FillMeans(q.ring.desc, q.h.free, e.bufs, e.readable);
    forall i | 0 <= i < |q.h.free| ensures q.h.free[i] < q.n { assert FreePlace(q.h, i); }
    Pigeonhole(q.h.free, q.n);
    var c := q'.h.added[|q.h.added|];
    forall j: nat | j < |c.idxs|
      ensures LinkOk(q'.ring.desc, c, j)
    {
      assert FreeLink(q.ring.desc, q.h.free, j);
      assert FilledAt(q.ring.desc, q'.ring.desc, q.h.free, e.bufs, e.readable, j);
    }
  }

  /** A chain that is already live shares no descriptor with the part of the free list used. */
  lemma AddKeepsChain(q: Sys, e: Event, b: nat)
    requires Inv(q) && Enabled(q, e) && e.AddWrite? && Live(q.h, b)
    ensures ChainOk(Next(q, e).ring.desc, Next(q, e).drv.descx, q.h.added[b])
  {
    var q', c := Next(q, e), q.h.added[b];
    FreeDistinct(q.h);
    FillMeans(q.ring.desc, q.h.free, e.bufs, e.readable);
    assert ChainPlaces(q.h, b) && ChainPlace(q.h, b, 0) && FreePlace(q.h, 0);
    forall j: nat | j < |c.idxs|
      ensures LinkOk(q'.ring.desc, c, j)
    {
      assert LinkOk(q.ring.desc, c, j);
      assert ChainPlace(q.h, b, j);
      forall i | 0 <= i < |e.bufs|
        ensures q.h.free[i] != c.idxs[j]
      {
        assert FreePlace(q.h, i);
      }
    }
  }

  // ---- Reclaiming a chain ----

  lemma FlagBits(i: nat, needed: nat, readable: nat)
    ensures (ChainFlags(i, needed, readable) & F_NEXT == 0) <==> i + 1 >= needed
    ensures ChainFlags(i, needed, readable) & F_INDIRECT == 0
    ensures FlagsOf(ChainFlags(i, needed, readable), i, needed, readable)
  {}

  /** Following the NEXT flags from position j of a chain reaches its last descriptor. */
  lemma {:induction false} WalkMeans(desc: seq<Desc>, descx: seq<Extra>, c: Chain, j: nat, fuel: nat)
    requires ChainOk(desc, descx, c) && j < |c.idxs| <= j + fuel
    ensures WalkChain(desc, c.idxs[j], fuel) == (c.idxs[|c.idxs| - 1], |c.idxs| - 1 - j)
    decreases fuel
  {
    assert LinkOk(desc, c, j);
    FlagBits(j, |c.bufs|, c.readable);
    if j + 1 < |c.idxs| {
      WalkMeans(desc, descx, c, j + 1, fuel - 1);
    }
  }

  lemma TailMeans(desc: seq<Desc>, descx: seq<Extra>, c: Chain)
    requires ChainOk(desc, descx, c)
    ensures ChainTail(desc, c.idxs[0]) == (c.idxs[|c.idxs| - 1], |c.idxs| - 1)
  {
    assert LinkOk(desc, c, 0);
    FlagBits(0, |c.bufs|, c.readable);
    WalkMeans(desc, descx, c, 0, |desc|);
  }

  /** The used element read next names the chain returned in that position. */
  lemma NextUsedMeans(q: Sys)
    requires Inv(q) && q.h.recl < q.h.ret
    ensures var a := q.h.order[q.h.recl];
      && Live(q.h, a)
      && NextUsed(q.ring, q.drv) == UsedElem(q.h.added[a].idxs[0], q.h.lens[q.h.recl])
      && U16(NextUsed(q.ring, q.drv).id) == q.h.added[a].idxs[0] < q.n
      && UsedCookie(q.ring, q.drv) == q.h.added[a].cookie
  {
    var a := q.h.order[q.h.recl];
    NextUsedElem(q);
    assert ReturnedAt(q.h, q.h.recl);
    assert Live(q.h, a);
    assert LinkOk(q.ring.desc, q.h.added[a], 0);
    Small(q.h.added[a].idxs[0], WORD16);
  }

  lemma NextUsedElem(q: Sys)
    requires Shape(q) && Counters(q) && Slots(q) && q.h.recl < q.h.ret
    ensures UsedSlot(q, q.h.recl)
    ensures NextUsed(q.ring, q.drv) == UsedElem(q.h.added[q.h.order[q.h.recl]].idxs[0], q.h.lens[q.h.recl])
  {
    SlotOfCounter(q.h.recl, q.n);
    assert UsedSlot(q, q.h.recl);
  }

  lemma ReclaimStages(h: History)
    requires Stages(h) && h.recl < |h.order|
    ensures Stages(ReclaimHistory(h))
    ensures Live(h, h.order[h.recl])
    ensures forall b: nat :: Live(ReclaimHistory(h), b) <==> Live(h, b) && b != h.order[h.recl]
  {
    var h', a := ReclaimHistory(h), h.order[h.recl];
    assert ReturnedAt(h, h.recl);
    forall k: nat | k < |h'.order| ensures ReturnedAt(h', k) { assert ReturnedAt(h, k); }
    forall b: nat | b < |h'.stage| ensures StageAt(h', b) { assert StageAt(h, b); }
    forall b: nat
      ensures Live(h', b) <==> Live(h, b) && b != a
    {
      if b < |h.stage| { assert StageAt(h, b); }
    }
  }

  lemma ReclaimPlaces(h: History)
    requires Places(h) && Stages(h) && h.recl < |h.order|
    ensures Places(ReclaimHistory(h))
  {
    ReclaimStages(h);
    var h', a := ReclaimHistory(h), h.order[h.recl];
    var idxs := h.added[a].idxs;
    forall d: nat | d < |h'.place| ensures DescPlace(h', d) {
      assert DescPlace(h, d);
    }
    forall p: nat | p < |h'.free| ensures FreePlace(h', p) {
      if p < |idxs| {
        assert ChainPlaces(h, a) && ChainPlace(h, a, p);
      } else {
        assert FreePlace(h, p - |idxs|);
      }
    }
    forall b: nat | Live(h', b) ensures ChainPlaces(h', b) {
      forall p: nat | p < |h'.added[b].idxs| ensures ChainPlace(h', b, p) {
        assert ChainPlaces(h, b) && ChainPlace(h, b, p);
      }
    }
  }

  lemma ReclaimInv(q: Sys)
    requires Inv(q) && q.dpc.Reclaiming?
    ensures Inv(Next(q, Reclaim))
  {
    var q' := Next(q, Reclaim);
    ReclaimStages(q.h);
    ReclaimPlaces(q.h);
    ReclaimList(q);
    forall b: nat | Live(q'.h, b)
      ensures ChainOk(q'.ring.desc, q'.drv.descx, q'.h.added[b])
    {
      ReclaimKeepsChain(q, b);
    }
    ReclaimCounters(q);
    ReclaimSlots(q);
  }

  lemma ReclaimCounters(q: Sys)
    requires Shape(q) && Counters(q) && q.dpc.Reclaiming?
    ensures Shape(Next(q, Reclaim)) && Counters(Next(q, Reclaim))
  {
    CounterNext(q.h.recl);
  }

  lemma ReclaimSlots(q: Sys)
    requires Shape(q) && Slots(q) && Shape(Next(q, Reclaim))
    ensures Slots(Next(q, Reclaim))
  {
    var q' := Next(q, Reclaim);
    forall k: nat | q'.h.taken <= k < |q'.h.added| ensures AvailSlot(q', k) { assert AvailSlot(q, k); }
    forall k: nat | q'.h.recl <= k < |q'.h.order| ensures UsedSlot(q', k) { assert UsedSlot(q, k); }
  }

  /** The freed chain is put in front of the free list. */
  lemma ReclaimList(q: Sys)
    requires Inv(q) && q.dpc.Reclaiming?
    ensures FreeListOk(Next(q, Reclaim))
  {
    NextUsedMeans(q);
    var q', a := Next(q, Reclaim), q.h.order[q.h.recl];
    var c := q.h.added[a];
    var m := |c.idxs|;
    TailMeans(q.ring.desc, q.drv.descx, c);
    assert ChainPlaces(q.h, a) && ChainPlace(q.h, a, m - 1);
    forall p: nat | p < |q'.h.free|
      ensures FreeLink(q'.ring.desc, q'.h.free, p)
    {
      if p < m {
        assert LinkOk(q.ring.desc, c, p);
        assert ChainPlace(q.h, a, p);
      } else {
        assert FreeLink(q.ring.desc, q.h.free, p - m);
        assert FreePlace(q.h, p - m);
      }
    }
  }

  lemma ReclaimKeepsChain(q: Sys, b: nat)
    requires Inv(q) && q.dpc.Reclaiming? && Live(q.h, b) && b != q.h.order[q.h.recl]
    ensures ChainOk(Next(q, Reclaim).ring.desc, Next(q, Reclaim).drv.descx, q.h.added[b])
  {
    var q', a := Next(q, Reclaim), q.h.order[q.h.recl];
    NextUsedMeans(q);
    var c, f := q.h.added[b], q.h.added[a];
    TailMeans(q.ring.desc, q.drv.descx, f);
    assert ChainPlaces(q.h, a) && ChainPlace(q.h, a, |f.idxs| - 1) && ChainPlace(q.h, a, 0);
    assert ChainPlaces(q.h, b) && ChainPlace(q.h, b, 0);
    forall j: nat | j < |c.idxs|
      ensures LinkOk(q'.ring.desc, c, j)
    {
      assert LinkOk(q.ring.desc, c, j);
      assert ChainPlace(q.h, b, j);
    }
  }

  // ---- The other steps ----

  lemma LookInv(q: Sys, e: Event)
    requires Inv(q) && Enabled(q, e) && (e.UsedLook? || e.AvailLook?)
    ensures Inv(Next(q, e))
  {
    Window(q);
    CounterEq(q.h.recl, q.h.ret);
    CounterEq(q.h.taken, q.h.pub);
    SameListsInv(q, Next(q, e));
  }

  /** What the device reads is the chain added in that position. */
  lemma NextAvailMeans(q: Sys)
    requires Inv(q) && q.h.taken < q.h.pub
    ensures Live(q.h, q.h.taken)
    ensures NextAvail(q.ring, q.dev) == q.h.added[q.h.taken].idxs[0] < q.n
  {
    SlotOfCounter(q.h.taken, q.n);
    assert StageAt(q.h, q.h.taken) && AvailSlot(q, q.h.taken);
    assert q.h.stage[q.h.taken].Returned? ==> ReturnedAt(q.h, q.h.stage[q.h.taken].k);
    assert Live(q.h, q.h.taken);
    assert LinkOk(q.ring.desc, q.h.added[q.h.taken], 0);
  }

  lemma RetWriteStages(q: Sys, e: Event)
    requires Inv(q) && Enabled(q, e) && e.RetWrite?
    ensures Stages(Next(q, e).h)
    ensures forall b: nat :: Live(Next(q, e).h, b) <==> Live(q.h, b)
  {
    var h', k := Next(q, e).h, |q.h.order|;
    assert DescPlace(q.h, e.head);
    forall i: nat | i < |h'.order| ensures ReturnedAt(h', i) {
      if i < k { assert ReturnedAt(q.h, i); }
    }
    forall b: nat | b < |h'.stage| ensures StageAt(h', b) { assert StageAt(q.h, b); }
  }

  lemma RetWriteSlots(q: Sys, e: Event)
    requires Inv(q) && Enabled(q, e) && e.RetWrite? && Stages(Next(q, e).h) && Shape(Next(q, e))
    ensures Slots(Next(q, e))
  {
    var q', k := Next(q, e), |q.h.order|;
    assert DescPlace(q.h, e.head);
    Window(q);
    OrderBound(q'.h);
    SlotOfCounter(q.h.ret, q.n);
    forall i: nat | q'.h.recl <= i < |q'.h.order| ensures UsedSlot(q', i) {
      if i < k {
        assert UsedSlot(q, i);
        if i % q.n == k % q.n { SlotsDistinct(i, k, q.n); }
      }
    }
    forall i: nat | q'.h.taken <= i < |q'.h.added| ensures AvailSlot(q', i) { assert AvailSlot(q, i); }
  }

  lemma RetWriteInv(q: Sys, e: Event)
    requires Inv(q) && Enabled(q, e) && e.RetWrite?
    ensures Inv(Next(q, e))
  {
    RetWriteStages(q, e);
    RetWriteSlots(q, e);
    SamePlaces(q.h, Next(q, e).h);
  }

  lemma SamePlaces(h: History, h': History)
    requires Places(h) && h'.place == h.place && h'.free == h.free && h'.added == h.added
    requires forall b: nat :: Live(h', b) <==> Live(h, b)
    ensures Places(h')
  {
    forall d: nat | d < |h'.place| ensures DescPlace(h', d) { assert DescPlace(h, d); }
    forall p: nat | p < |h'.free| ensures FreePlace(h', p) { assert FreePlace(h, p); }
    forall b: nat | Live(h', b) ensures ChainPlaces(h', b) {
      forall p: nat | p < |h'.added[b].idxs| ensures ChainPlace(h', b, p) {
        assert ChainPlaces(h, b) && ChainPlace(h, b, p);
      }
    }
  }

  /** A step that only moves counters forward within their windows. */
  lemma SameListsInv(q: Sys, q': Sys)
    requires Inv(q) && q'.n == q.n && Counters(q')
    requires q'.ring.desc == q.ring.desc && q'.ring.availRing == q.ring.availRing && q'.ring.usedRing == q.ring.usedRing
    requires q'.drv.head == q.drv.head && q'.drv.freeCnt == q.drv.freeCnt && q'.drv.descx == q.drv.descx
    requires q'.h.free == q.h.free && q'.h.place == q.h.place && q'.h.added == q.h.added && q'.h.stage == q.h.stage
    requires q'.h.order == q.h.order && q'.h.lens == q.h.lens && q'.h.recl == q.h.recl && q.h.taken <= q'.h.taken
    ensures Inv(q')
  {
    forall i: nat | i < |q'.h.order| ensures ReturnedAt(q'.h, i) { assert ReturnedAt(q.h, i); }
    forall b: nat | b < |q'.h.stage| ensures StageAt(q'.h, b) { assert StageAt(q.h, b); }
    assert forall b: nat :: Live(q'.h, b) <==> Live(q.h, b);
    SamePlaces(q.h, q'.h);
    forall i: nat | q'.h.recl <= i < |q'.h.order| ensures UsedSlot(q', i) { assert UsedSlot(q, i); }
    forall i: nat | q'.h.taken <= i < |q'.h.added| ensures AvailSlot(q', i) { assert AvailSlot(q, i); }
  }

  lemma QuietInv(q: Sys, e: Event)
    requires Inv(q) && Enabled(q, e)
    requires !e.AddWrite? && !e.Reclaim? && !e.RetWrite? && !e.UsedLook? && !e.AvailLook?
    ensures Inv(Next(q, e))
  {
    CounterNext(q.h.pub);
    CounterNext(q.h.ret);
    CounterNext(q.h.taken);
    SameListsInv(q, Next(q, e));
  }

  lemma StepInv(q: Sys, e: Event)
    requires Inv(q) && Enabled(q, e)
    ensures Inv(Next(q, e))
  {
    match e {
      case AddWrite(_, _, _) => AddWriteInv(q, e);
      case Reclaim => ReclaimInv(q);
      case RetWrite(_, _) => RetWriteInv(q, e);
      case UsedLook => LookInv(q, e);
      case AvailLook => LookInv(q, e);
      case _ => QuietInv(q, e);
    }
  }

  lemma InitInv(n: nat, eventIdx: bool)
    requires RingSize(n)
    ensures Inv(Init(n, eventIdx))
  {
    RingSizeFacts(n);
  }

  /** Every state of every run satisfies the invariant. */
  lemma {:induction false} RunInv(n: nat, eventIdx: bool, qs: seq<Sys>, es: seq<Event>, i: nat)
    requires RingSize(n) && IsRun(n, eventIdx, qs, es) && i < |qs|
    ensures Inv(qs[i]) && qs[i].n == n && qs[i].eventIdx == eventIdx
  {
    if i == 0 {
      InitInv(n, eventIdx);
    } else {
      RunInv(n, eventIdx, qs, es, i - 1);
      assert StepAt(qs, es, i - 1);
      StepInv(qs[i - 1], es[i - 1]);
    }
  }
}
