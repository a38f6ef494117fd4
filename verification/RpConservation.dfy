/** Conservation: every buffer that has left the pool is in exactly one of eight places. */
module RpConservation {
  import opened QueueState
  import opened QueueInvariant
  import opened RpState
  import opened RpInvariant
  import opened RpTheorems

  // ---- The places ----

  /** In the master's receive loop, and in the remote's. */
  ghost function MasterRxSet(t: Chan): set<nat> { if t.mRx.Got? then {t.mRx.buf} else {} }

  ghost function RemoteRxSet(t: Chan): set<nat> { if t.rRx.Got? then {t.rRx.buf} else {} }

  /** In the hands of the remote's senders; those of the master's senders are the keys of mTx. */
  ghost function RemoteTxSet(t: Chan): set<nat> { set head: nat | head in t.rTx :: t.rTx[head].buf }

  ghost predicate Offered(h: History, a: nat) { a < |h.added| && h.taken <= a }

  ghost predicate Taken(h: History, a: nat) {
    a < |h.added| && a < h.taken && a < |h.stage| && h.stage[a].Pending?
  }

  ghost predicate Finished(h: History, a: nat) {
    a < |h.added| && a < |h.stage| && h.stage[a].Returned? && h.recl <= h.stage[a].k
  }

  /** On the ring for the device, taken by it, and on the ring for the driver. */
  ghost function OfferedSet(h: History): set<nat> {
    set a: nat | a < |h.added| && Offered(h, a) :: h.added[a].cookie
  }

  ghost function TakenSet(h: History): set<nat> {
    set a: nat | a < |h.added| && Taken(h, a) :: h.added[a].cookie
  }

  ghost function FinishedSet(h: History): set<nat> {
    set a: nat | a < |h.added| && Finished(h, a) :: h.added[a].cookie
  }

  /** All outstanding buffers of a queue. */
  ghost function Cookies(h: History): set<nat> {
    set a: nat | a < |h.added| && Live(h, a) :: h.added[a].cookie
  }

  // ---- One queue ----

  ghost predicate CookiesDiffer(h: History) {
    forall a: nat, b: nat :: Live(h, a) && Live(h, b) && a != b ==> h.added[a].cookie != h.added[b].cookie
  }

  /** Each live chain is offered, taken or finished, and only one of these. */
  lemma OneStage(h: History, a: nat)
    requires Stages(h) && a < |h.added|
    ensures Live(h, a) <==> Offered(h, a) || Taken(h, a) || Finished(h, a)
    ensures !(Offered(h, a) && Finished(h, a)) && !(Taken(h, a) && Finished(h, a)) && !(Offered(h, a) && Taken(h, a))
  {
    assert StageAt(h, a);
    assert h.stage[a].Returned? ==> ReturnedAt(h, h.stage[a].k);
  }

  lemma QueuePlaces(h: History)
    requires Stages(h) && CookiesDiffer(h)
    ensures Cookies(h) == OfferedSet(h) + TakenSet(h) + FinishedSet(h)
    ensures OfferedSet(h) !! TakenSet(h) !! FinishedSet(h)
  {
    forall a: nat | a < |h.added|
      ensures Live(h, a) <==> Offered(h, a) || Taken(h, a) || Finished(h, a)
      ensures !(Offered(h, a) && Finished(h, a)) && !(Taken(h, a) && Finished(h, a)) && !(Offered(h, a) && Taken(h, a))
    {
      OneStage(h, a);
    }
    forall c | c in Cookies(h) ensures c in OfferedSet(h) + TakenSet(h) + FinishedSet(h) {
      var a: nat :| a < |h.added| && Live(h, a) && h.added[a].cookie == c;
      assert Offered(h, a) || Taken(h, a) || Finished(h, a);
    }
  }

  // ---- The remote's hands ----

  /** What the remote's senders hold is what it has taken from the receive queue. */
  lemma RemoteTxIsTaken(t: Chan)
    requires Inv(t.rxq) && Hands(t)
    ensures RemoteTxSet(t) == TakenSet(t.rxq.h)
  {
    var h := t.rxq.h;
    forall b | b in RemoteTxSet(t) ensures b in TakenSet(h) {
      var head: nat :| head in t.rTx && t.rTx[head].buf == b;
      assert Held(h, head) && RTxHand(t, head) && Taken(h, ChainOf(h, head));
    }
    forall b | b in TakenSet(h) ensures b in RemoteTxSet(t) {
      var a: nat :| a < |h.added| && Taken(h, a) && h.added[a].cookie == b;
      TakenIsHeld(t.rxq, a);
      var head := h.added[a].idxs[0];
      assert Held(h, head) && RTxHand(t, head);
    }
  }

  /** What the remote's receive loop holds is what it has taken from the send queue. */
  lemma RemoteRxIsTaken(t: Chan)
    requires Inv(t.txq) && Hands(t)
    ensures RemoteRxSet(t) == TakenSet(t.txq.h)
  {
    var h := t.txq.h;
    if t.rRx.Got? {
      assert Held(h, t.rRx.key) && Taken(h, ChainOf(h, t.rRx.key));
    }
    forall b | b in TakenSet(h) ensures b in RemoteRxSet(t) {
      var a: nat :| a < |h.added| && Taken(h, a) && h.added[a].cookie == b;
      TakenIsHeld(t.txq, a);
    }
  }

  lemma TakenIsHeld(q: Sys, a: nat)
    requires Inv(q) && Taken(q.h, a)
    ensures |q.h.added[a].idxs| > 0 && Held(q.h, q.h.added[a].idxs[0]) && ChainOf(q.h, q.h.added[a].idxs[0]) == a
  {
    assert Live(q.h, a);
    assert ChainOk(q.ring.desc, q.drv.descx, q.h.added[a]);
    assert ChainPlaces(q.h, a) && ChainPlace(q.h, a, 0);
  }

  // ---- All places ----

  lemma PlacesSeparate(t: Chan)
    requires Spots(t)
    ensures forall b :: b in t.mTx ==> b in t.spot && t.spot[b].MasterTx?
    ensures forall b :: b in MasterRxSet(t) ==> b in t.spot && t.spot[b].MasterRx?
    ensures forall b :: b in Cookies(t.rxq.h) ==> b in t.spot && t.spot[b].RxQ?
    ensures forall b :: b in Cookies(t.txq.h) ==> b in t.spot && t.spot[b].TxQ?
  {
    forall b | b in t.mTx ensures b in t.spot && t.spot[b].MasterTx? { assert MTxSpot(t, b); }
    forall b | b in Cookies(t.rxq.h) ensures b in t.spot && t.spot[b].RxQ? {
      var a: nat :| a < |t.rxq.h.added| && Live(t.rxq.h, a) && t.rxq.h.added[a].cookie == b;
      assert RxSpot(t, a);
    }
    forall b | b in Cookies(t.txq.h) ensures b in t.spot && t.spot[b].TxQ? {
      var a: nat :| a < |t.txq.h.added| && Live(t.txq.h, a) && t.txq.h.added[a].cookie == b;
      assert TxSpot(t, a);
    }
  }

  lemma PlacesCover(t: Chan)
    requires Spots(t)
    ensures forall b :: b in t.spot ==>
      b in t.mTx || b in MasterRxSet(t) || b in Cookies(t.rxq.h) || b in Cookies(t.txq.h)
  {
    forall b | b in t.spot
      ensures b in t.mTx || b in MasterRxSet(t) || b in Cookies(t.rxq.h) || b in Cookies(t.txq.h)
    {
      assert SpotOk(t, b);
      match t.spot[b] {
        case MasterTx =>
        case MasterRx =>
        case RxQ(a) => InCookies(t.rxq.h, a);
        case TxQ(a) => InCookies(t.txq.h, a);
      }
    }
  }

  lemma InCookies(h: History, a: nat)
    requires Live(h, a)
    ensures h.added[a].cookie in Cookies(h)
  {}

  lemma SpotsDiffer(t: Chan)
    requires Spots(t)
    ensures CookiesDiffer(t.rxq.h) && CookiesDiffer(t.txq.h)
  {
    forall a: nat, b: nat | Live(t.rxq.h, a) && Live(t.rxq.h, b) && a != b
      ensures t.rxq.h.added[a].cookie != t.rxq.h.added[b].cookie
    {
      assert RxSpot(t, a) && RxSpot(t, b);
    }
    forall a: nat, b: nat | Live(t.txq.h, a) && Live(t.txq.h, b) && a != b
      ensures t.txq.h.added[a].cookie != t.txq.h.added[b].cookie
    {
      assert TxSpot(t, a) && TxSpot(t, b);
    }
  }

  /** The buffers that have left the pool are in exactly one of these places: in the hands of a sender
      or of the receive loop, of the master or of the remote, or on the way, in either direction, on
      the receive or on the send queue. */
  ghost predicate InOnePlace(t: Chan) {
    && t.spot.Keys == t.mTx.Keys + MasterRxSet(t) + RemoteTxSet(t) + RemoteRxSet(t)
       + OfferedSet(t.rxq.h) + FinishedSet(t.rxq.h) + OfferedSet(t.txq.h) + FinishedSet(t.txq.h)
    && t.mTx.Keys !! MasterRxSet(t) !! RemoteTxSet(t) !! RemoteRxSet(t)
       !! OfferedSet(t.rxq.h) !! FinishedSet(t.rxq.h) !! OfferedSet(t.txq.h) !! FinishedSet(t.txq.h)
  }

  lemma FourPlaces(t: Chan)
    requires Spots(t)
    ensures t.spot.Keys == t.mTx.Keys + MasterRxSet(t) + Cookies(t.rxq.h) + Cookies(t.txq.h)
    ensures t.mTx.Keys !! MasterRxSet(t) !! Cookies(t.rxq.h) !! Cookies(t.txq.h)
  {
    PlacesSeparate(t);
    PlacesCover(t);
  }

  /** Splitting two of four disjoint parts into three each. */
  lemma Split(all: set<nat>, m: set<nat>, l: set<nat>, r: set<nat>, x: set<nat>,
              r1: set<nat>, r2: set<nat>, r3: set<nat>, x1: set<nat>, x2: set<nat>, x3: set<nat>)
    requires all == m + l + r + x && m !! l !! r !! x
    requires r == r1 + r2 + r3 && r1 !! r2 !! r3 && x == x1 + x2 + x3 && x1 !! x2 !! x3
    ensures all == m + l + r2 + x2 + r1 + r3 + x1 + x3
    ensures m !! l !! r2 !! x2 !! r1 !! r3 !! x1 !! x3
  {}

  lemma EightPlaces(t: Chan)
    requires Spots(t) && Hands(t) && Inv(t.rxq) && Inv(t.txq)
    ensures InOnePlace(t)
  {
    FourPlaces(t);
    SpotsDiffer(t);
    QueuePlaces(t.rxq.h);
    QueuePlaces(t.txq.h);
    RemoteTxIsTaken(t);
    RemoteRxIsTaken(t);
    var h, g := t.rxq.h, t.txq.h;
    Split(t.spot.Keys, t.mTx.Keys, MasterRxSet(t), Cookies(h), Cookies(g),
          OfferedSet(h), RemoteTxSet(t), FinishedSet(h), OfferedSet(g), RemoteRxSet(t), FinishedSet(g));
  }

  /** Conservation: one place for each buffer, and the counts add up to what has left the pool. */
  lemma Conservation(t: Chan)
    requires Sound(t)
    ensures InOnePlace(t)
    ensures |t.spot| * BUFFER_SIZE == t.pool.size - t.pool.avail
    ensures |t.mTx| + |MasterRxSet(t)| + Outstanding(t.rxq.h) + Outstanding(t.txq.h) == |t.spot|
  {
    Open(t);
    EightPlaces(t);
  }

  /** Conservation in every state of every run. */
  lemma ConservationInRuns(s: Setup, ts: seq<Chan>, es: seq<Ev>, i: nat)
    requires SetupOk(s) && NoLarger(s.size, s.n0, s.n1) && IsTRun(Start(s), ts, es) && i < |ts|
    ensures InOnePlace(ts[i])
    ensures |ts[i].spot| * BUFFER_SIZE == ts[i].pool.size - ts[i].pool.avail
  {
    RunStateInv(s, ts, es, i);
    Conservation(ts[i]);
  }
}
