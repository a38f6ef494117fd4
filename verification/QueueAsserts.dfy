/** The assertions that virtqueue.c compiles in under VQUEUE_DEBUG hold in every state of every run. */
module QueueAsserts {
  import opened Bits
  import opened QueueState
  import opened QueueInvariant
  import opened QueueTheorems

  /** Descriptor d is the first of a live chain. */
  predicate IsHead(h: History, d: nat) {
    d < |h.place| && h.place[d].In? && h.place[d].pos == 0
  }

  ghost predicate ClearAt(q: Sys, d: nat) {
    IsHead(q.h, d) || At(q.drv.descx, d, NO_EXTRA).cookie == NULL
  }

  /** Only the first descriptors of live chains have a cookie. */
  ghost predicate NoStrayCookies(q: Sys) {
    forall d: nat :: ClearAt(q, d)
  }

  lemma AddCookies(q: Sys, e: Event)
    requires Inv(q) && Enabled(q, e) && e.AddWrite? && NoStrayCookies(q)
    ensures NoStrayCookies(Next(q, e))
  {
    var q' := Next(q, e);
    assert FreePlace(q.h, 0);
    forall d: nat ensures ClearAt(q', d) { assert ClearAt(q, d); }
  }

  lemma ReclaimCookies(q: Sys)
    requires Inv(q) && Enabled(q, Reclaim) && NoStrayCookies(q)
    ensures NoStrayCookies(Next(q, Reclaim))
  {
    var q' := Next(q, Reclaim);
    NextUsedMeans(q);
    forall d: nat ensures ClearAt(q', d) {
      assert ClearAt(q, d);
      if IsHead(q.h, d) { assert DescPlace(q.h, d); }
    }
  }

  lemma StepCookies(q: Sys, e: Event)
    requires Inv(q) && Enabled(q, e) && NoStrayCookies(q)
    ensures NoStrayCookies(Next(q, e))
  {
    if e.AddWrite? {
      AddCookies(q, e);
    } else if e.Reclaim? {
      ReclaimCookies(q);
    } else {
      forall d: nat ensures ClearAt(Next(q, e), d) { assert ClearAt(q, d); }
    }
  }

  /** In every state of every run the cookies that are set are those of the live chains. */
  lemma {:induction false} RunCookies(n: nat, ev: bool, qs: seq<Sys>, es: seq<Event>, i: nat)
    requires RingSize(n) && IsRun(n, ev, qs, es) && i < |qs|
    ensures NoStrayCookies(qs[i])
  {
    if i == 0 {
      forall d: nat ensures ClearAt(qs[0], d) {}
    } else {
      RunCookies(n, ev, qs, es, i - 1);
      RunInv(n, ev, qs, es, i - 1);
      assert StepAt(qs, es, i - 1);
      StepCookies(qs[i - 1], es[i - 1]);
    }
  }

  /** vq_ring_free_chain leaves no descriptor of the chain uncounted. */
  lemma WholeChainFreed(q: Sys)
    requires Inv(q) && q.h.recl < q.h.ret
    ensures var id := U16(NextUsed(q.ring, q.drv).id);
      id < |q.drv.descx| && At(FreeChain(q.ring, q.drv, id).1.descx, id, NO_EXTRA).ndescs == 0
  {
    NextUsedMeans(q);
    var c := q.h.added[q.h.order[q.h.recl]];
    assert ChainOk(q.ring.desc, q.drv.descx, c);
    TailMeans(q.ring.desc, q.drv.descx, c);
  }

  /** The loop that frees a chain stands on a valid descriptor after j links; it goes on exactly until it has
      followed the links that are counted, and the link it then follows is valid. */
  ghost predicate LinkValid(desc: seq<Desc>, id: nat, j: nat) {
    var d, links := Follow(desc, id, j), ChainTail(desc, id).1;
    d < |desc| && (desc[d].flags & F_NEXT != 0 <==> j < links) && (j < links ==> desc[d].next < |desc|)
  }

  /** In every state of every run: the head of the free list is valid and has no cookie, or it is the
      end mark and nothing is free; an add of up to free-count buffers meets valid descriptors only;
      the next used element names a valid descriptor, the links followed from it are valid and freeing
      it counts its descriptors down to zero; neither ring seems to hold more than n entries. */
  lemma AssertionsHold(n: nat, ev: bool, qs: seq<Sys>, es: seq<Event>, i: nat)
    requires RingSize(n) && IsRun(n, ev, qs, es) && i < |qs|
    ensures var q := qs[i];
      && (q.drv.freeCnt == 0 ==> q.drv.head == CHAIN_END)
      && (q.drv.freeCnt > 0 ==> q.drv.head < n == |q.drv.descx| && q.drv.descx[q.drv.head].cookie == NULL)
      && (forall k: nat :: k < q.drv.freeCnt ==> Follow(q.ring.desc, q.drv.head, k) < n)
      && U16(q.ring.usedIdx - q.drv.usedCons) <= n && U16(q.ring.availIdx - q.dev.availCons) <= n
    ensures qs[i].h.recl < qs[i].h.ret ==>
      var q := qs[i];
      var id := U16(NextUsed(q.ring, q.drv).id);
      && |q.ring.desc| == n && id < n
      && |DoneAt(q.h, q.h.recl).chain.idxs| > 0 && DoneAt(q.h, q.h.recl).chain.idxs[0] == id
      && (forall j: nat :: j <= ChainTail(q.ring.desc, id).1 ==> LinkValid(q.ring.desc, id, j))
      && At(FreeChain(q.ring, q.drv, id).1.descx, id, NO_EXTRA).ndescs == 0
  {
    var q := qs[i];
    RunInv(n, ev, qs, es, i);
    RunCookies(n, ev, qs, es, i);
    FreeHeadClear(q);
    Partition(q);
    IndicesExact(q);
    Window(q);
    if q.h.recl < q.h.ret {
      WholeChainFreed(q);
      LinksValid(q);
      NextUsedMeans(q);
    }
  }

  lemma FreeHeadClear(q: Sys)
    requires Inv(q) && NoStrayCookies(q)
    ensures q.drv.freeCnt == 0 ==> q.drv.head == CHAIN_END
    ensures q.drv.freeCnt > 0 ==> q.drv.head < q.n == |q.drv.descx| && q.drv.descx[q.drv.head].cookie == NULL
  {
    InBounds(q);
    if q.drv.freeCnt > 0 {
      assert FreePlace(q.h, 0) && ClearAt(q, q.drv.head);
    }
  }

  lemma {:induction false} FollowChain(desc: seq<Desc>, descx: seq<Extra>, c: Chain, p: nat, k: nat)
    requires ChainOk(desc, descx, c) && p + k < |c.idxs|
    ensures Follow(desc, c.idxs[p], k) == c.idxs[p + k]
    decreases k
  {
    assert LinkOk(desc, c, p);
    if k > 0 { FollowChain(desc, descx, c, p + 1, k - 1); }
  }

  lemma LinksValid(q: Sys)
    requires Inv(q) && q.h.recl < q.h.ret
    ensures var id := U16(NextUsed(q.ring, q.drv).id);
      forall j: nat :: j <= ChainTail(q.ring.desc, id).1 ==> LinkValid(q.ring.desc, id, j)
  {
    NextUsedMeans(q);
    var desc, c := q.ring.desc, DoneAt(q.h, q.h.recl).chain;
    assert ChainOk(desc, q.drv.descx, c);
    TailMeans(desc, q.drv.descx, c);
    forall j: nat | j < |c.idxs| ensures LinkValid(desc, c.idxs[0], j) {
      ChainLink(desc, q.drv.descx, c, j);
    }
  }

  lemma ChainLink(desc: seq<Desc>, descx: seq<Extra>, c: Chain, j: nat)
    requires ChainOk(desc, descx, c) && j < |c.idxs|
    ensures LinkValid(desc, c.idxs[0], j)
  {
    FollowChain(desc, descx, c, 0, j);
    TailMeans(desc, descx, c);
    FlagBits(j, |c.bufs|, c.readable);
    assert LinkOk(desc, c, j) && (j + 1 < |c.idxs| ==> LinkOk(desc, c, j + 1));
  }
}
