/** Each event of the transport keeps the invariant of RpInvariant. */
module RpSteps {
  import opened QueueState
  import opened QueueInvariant
  import opened QueueTheorems
  import opened RpState
  import opened RpInvariant

  // ---- One queue step, seen on the logs of one-buffer chains ----

  ghost predicate SameHeld(h: History, h': History) {
    && (forall i: nat :: Held(h', i) <==> Held(h, i))
    && (forall i: nat :: Held(h, i) ==> ChainOf(h', i) == ChainOf(h, i))
  }

  ghost predicate SameLive(h: History, h': History) {
    forall i: nat :: Live(h', i) <==> Live(h, i)
  }

  ghost predicate AddedOne(h: History, h': History, b: nat) {
    && |h'.added| == |h.added| + 1 && h'.added[..|h.added|] == h.added && h'.added[|h.added|].cookie == b
    && |h'.free| == |h.free| - 1
    && h'.order == h.order && h'.taken == h.taken && h'.recl == h.recl
    && (forall i: nat :: Live(h', i) <==> Live(h, i) || i == |h.added|)
    && SameHeld(h, h')
  }

  ghost predicate ReclaimedOne(h: History, h': History, a: nat) {
    && h.recl < |h.order| && a == h.order[h.recl] && Live(h, a)
    && h'.added == h.added && |h'.free| == |h.free| + 1
    && h'.order == h.order && h'.taken == h.taken && h'.recl == h.recl + 1
    && (forall i: nat :: Live(h', i) <==> Live(h, i) && i != a)
    && SameHeld(h, h')
  }

  ghost predicate TookOne(h: History, h': History, head: nat) {
    && h.taken < |h.added| && Live(h, h.taken)
    && h'.added == h.added && h'.free == h.free
    && h'.order == h.order && h'.taken == h.taken + 1 && h'.recl == h.recl
    && SameLive(h, h')
    && !Held(h, head) && Held(h', head) && ChainOf(h', head) == h.taken
    && (forall i: nat :: Held(h', i) <==> Held(h, i) || i == head)
    && (forall i: nat :: Held(h, i) ==> ChainOf(h', i) == ChainOf(h, i))
  }

  ghost predicate ReturnedOne(h: History, h': History, head: nat) {
    && Held(h, head) && Live(h, ChainOf(h, head))
    && h'.added == h.added && h'.free == h.free
    && h'.order == h.order + [ChainOf(h, head)] && h'.taken == h.taken && h'.recl == h.recl
    && SameLive(h, h')
    && (forall i: nat :: Held(h', i) <==> Held(h, i) && i != head)
    && (forall i: nat :: Held(h', i) ==> ChainOf(h', i) == ChainOf(h, i))
  }

  /** Adding a one-buffer chain. */
  lemma AddOne(q: Sys, b: nat, readable: nat)
    requires Inv(q) && Enabled(q, AddWrite([Buf(b, BUFFER_SIZE)], readable, b)) && Singles(q.h, readable)
    ensures var q' := Next(q, AddWrite([Buf(b, BUFFER_SIZE)], readable, b));
      && Inv(q') && Singles(q'.h, readable) && q'.n == q.n && q'.dpc.Publishing?
      && AddedOne(q.h, q'.h, b)
  {
    var e := AddWrite([Buf(b, BUFFER_SIZE)], readable, b);
    StepInv(q, e);
    LiveStep(q, e);
    HeldStep(q, e);
  }

  /** Reclaiming a one-buffer chain gives back the cookie and the full length. */
  lemma ReclaimOne(q: Sys, readable: nat)
    requires Inv(q) && q.dpc.Reclaiming? && Singles(q.h, readable)
    ensures var q' := Next(q, Reclaim);
      && Inv(q') && Singles(q'.h, readable) && q'.n == q.n && q'.dpc.DIdle?
      && q.h.recl < |q.h.order|
      && ReclaimedOne(q.h, q'.h, q.h.order[q.h.recl])
      && UsedCookie(q.ring, q.drv) == q.h.added[q.h.order[q.h.recl]].cookie
      && NextUsed(q.ring, q.drv).len == BUFFER_SIZE
  {
    NextUsedMeans(q);
    StepInv(q, Reclaim);
    LiveStep(q, Reclaim);
    HeldStep(q, Reclaim);
  }

  /** The device takes the oldest untaken chain. */
  lemma TakeOne(q: Sys, readable: nat)
    requires Inv(q) && q.vpc.Taking? && Singles(q.h, readable)
    ensures var q', head := Next(q, Take), NextAvail(q.ring, q.dev);
      && Inv(q') && Singles(q'.h, readable) && q'.n == q.n && q'.dpc == q.dpc
      && TookOne(q.h, q'.h, head)
      && At(q.ring.desc, head, NO_DESC).addr == q.h.added[q.h.taken].cookie
      && At(q.ring.desc, head, NO_DESC).len == BUFFER_SIZE
  {
    NextAvailMeans(q);
    assert LinkOk(q.ring.desc, q.h.added[q.h.taken], 0);
    StepInv(q, Take);
    LiveStep(q, Take);
    HeldStep(q, Take);
    assert ChainPlaces(q.h, q.h.taken) && ChainPlace(q.h, q.h.taken, 0);
  }

  /** The device returns a held chain with the full length. */
  lemma ReturnOne(q: Sys, head: nat, readable: nat)
    requires Inv(q) && q.vpc.VIdle? && Held(q.h, head) && Singles(q.h, readable)
    ensures var q' := Next(q, RetWrite(head, BUFFER_SIZE));
      && Inv(q') && Singles(q'.h, readable) && q'.n == q.n && q'.dpc == q.dpc
      && ReturnedOne(q.h, q'.h, head)
  {
    var e := RetWrite(head, BUFFER_SIZE);
    HeldChain(q, head);
    StepInv(q, e);
    LiveStep(q, e);
    HeldStep(q, e);
  }

  // ---- Sending and posting ----

  ghost predicate Sent(t: Chan, t': Chan, buf: nat) {
    && buf in t.mTx && t.mTx[buf].tx.Filled?
    && AddedOne(t.txq.h, t'.txq.h, buf) && t'.txq.n == t.txq.n && t'.txq.dpc.Publishing?
    && t' == t.(txq := t'.txq, mTx := t.mTx - {buf}, dry := t'.dry, spot := t.spot[buf := TxQ(|t.txq.h.added|)],
                sentR := t.sentR + [t.mTx[buf].tx.msg])
  }

  lemma SentSpots(t: Chan, t': Chan, buf: nat)
    requires Spots(t) && Sent(t, t', buf)
    ensures Spots(t') && buf in t.spot
  {
    assert MTxSpot(t, buf);
    forall b | b in t'.spot ensures SpotOk(t', b) { assert SpotOk(t, b); }
    forall b | b in t'.mTx ensures MTxSpot(t', b) { assert MTxSpot(t, b); }
    forall i: nat | Live(t'.rxq.h, i) ensures RxSpot(t', i) { assert RxSpot(t, i); }
    forall i: nat | Live(t'.txq.h, i) ensures TxSpot(t', i) { if i < |t.txq.h.added| { assert TxSpot(t, i); } }
  }

  lemma SentPlaced(t: Chan, t': Chan, buf: nat)
    requires Placed(t) && Sent(t, t', buf)
    ensures Placed(t')
  {
    SentSpots(t, t', buf);
    assert t'.spot.Keys == t.spot.Keys;
    assert t'.mTx.Keys == t.mTx.Keys - {buf};
  }

  lemma SentFlow(t: Chan, t': Chan, buf: nat)
    requires Placed(t) && Flow(t) && Sent(t, t', buf)
    ensures Flow(t')
  {
    assert MTxSpot(t, buf) && MTxOk(t, buf);
    forall b | b in t'.mTx ensures MTxOk(t', b) { assert MTxOk(t, b); }
    forall head: nat | head in t'.rTx ensures RTxHand(t', head) && RTxOk(t', head) {
      assert RTxHand(t, head) && RTxOk(t, head);
    }
    forall i: nat | SeenR(t') <= i < |t'.sentR| ensures InFlightR(t', i) {
      if i < |t.sentR| { assert InFlightR(t, i); }
    }
    forall k: nat | t'.rxq.h.recl <= k < |t'.sentM| ensures InFlightM(t', k) { assert InFlightM(t, k); }
  }

  lemma SendStep(t: Chan, buf: nat)
    requires Sound(t) && TEnabled(t, MSend(buf)) && 1 <= t.txq.drv.freeCnt
    ensures Sound(TNext(t, MSend(buf)))
  {
    Open(t);
    var t' := TNext(t, MSend(buf));
    assert MTxSpot(t, buf) && InPool(t.pool, buf);
    AddOne(t.txq, buf, 1);
    SentPlaced(t, t', buf);
    SentFlow(t, t', buf);
    Close(TNext(t, MSend(buf)));
  }

  /** The pool's next buffer has not been handed out before; taking it keeps the pool in order. */
  lemma FreshBuffer(t: Chan, t': Chan, buf: nat, c: Cell)
    requires PoolOk(t) && BUFFER_SIZE <= t.pool.avail && buf == PoolPtr(t.pool) && |c.data| == PAYLOAD_MAX
    requires t'.pool == PoolTake(t.pool) && t'.mem == t.mem[buf := c] && t'.spot.Keys == t.spot.Keys + {buf}
    ensures buf !in t.spot && |t'.spot| == |t.spot| + 1
    ensures PoolOk(t')
  {
    forall b | b in t.spot ensures b != buf && InPool(t'.pool, b) { assert InPool(t.pool, b); }
    assert buf - t.pool.base == |t.spot| * BUFFER_SIZE;
    assert InPool(t'.pool, buf);
    assert |t'.spot| == |t'.spot.Keys| == |t.spot.Keys| + 1 == |t.spot| + 1;
  }

  ghost predicate Posted(t: Chan, t': Chan, buf: nat) {
    && buf == PoolPtr(t.pool) && BUFFER_SIZE <= t.pool.avail && t.filled < t.rxq.n && !t.ready
    && AddedOne(t.rxq.h, t'.rxq.h, buf) && t'.rxq.n == t.rxq.n
    && t' == t.(rxq := t'.rxq, pool := PoolTake(t.pool), mem := t.mem[buf := ZeroCell()], filled := t.filled + 1,
                spot := t.spot[buf := RxQ(|t.rxq.h.added|)])
  }

  lemma PostedPlaced(t: Chan, t': Chan, buf: nat)
    requires Placed(t) && Posted(t, t', buf)
    ensures Placed(t') && buf !in t.mem
  {
    assert t'.spot.Keys == t.spot.Keys + {buf};
    FreshBuffer(t, t', buf, ZeroCell());
    assert t.mTx.Keys == {};
    forall b | b in t'.spot ensures SpotOk(t', b) { if b != buf { assert SpotOk(t, b); } }
    forall i: nat | Live(t'.rxq.h, i) ensures RxSpot(t', i) { if i < |t.rxq.h.added| { assert RxSpot(t, i); } }
    forall i: nat | Live(t'.txq.h, i) ensures TxSpot(t', i) { assert TxSpot(t, i); }
  }

  lemma PostedFlow(t: Chan, t': Chan, buf: nat)
    requires Flow(t) && Posted(t, t', buf) && buf !in t.mem && t.mTx.Keys == {}
    ensures Flow(t')
  {
    forall head: nat | head in t'.rTx ensures RTxHand(t', head) && RTxOk(t', head) {
      assert RTxHand(t, head) && RTxOk(t, head);
    }
    forall i: nat | SeenR(t') <= i < |t'.sentR| ensures InFlightR(t', i) { assert InFlightR(t, i); }
    forall k: nat | t'.rxq.h.recl <= k < |t'.sentM| ensures InFlightM(t', k) { assert InFlightM(t, k); }
  }

  lemma PostStep(t: Chan)
    requires Sound(t) && TEnabled(t, MPost)
    ensures Sound(TNext(t, MPost))
  {
    Open(t);
    var t', buf := TNext(t, MPost), PoolPtr(t.pool);
    RoomInRings(t, MPost);
    AddOne(t.rxq, buf, 0);
    PostedPlaced(t, t', buf);
    assert t.mTx.Keys == {};
    PostedFlow(t, t', buf);
    Close(TNext(t, MPost));
  }

  ghost predicate GaveBack(t: Chan, t': Chan, buf: nat) {
    && t.mRx.Got? && t.mRx.seen && t.mRx.buf == buf
    && AddedOne(t.rxq.h, t'.rxq.h, buf) && t'.rxq.n == t.rxq.n
    && t' == t.(rxq := t'.rxq, mRx := NoRx, spot := t.spot[buf := RxQ(|t.rxq.h.added|)])
  }

  lemma GaveBackPlaced(t: Chan, t': Chan, buf: nat)
    requires Placed(t) && GaveBack(t, t', buf)
    ensures Placed(t')
  {
    assert t'.spot.Keys == t.spot.Keys;
    forall b | b in t'.spot ensures SpotOk(t', b) { assert SpotOk(t, b); }
    forall b | b in t'.mTx ensures MTxSpot(t', b) { assert MTxSpot(t, b); }
    forall i: nat | Live(t'.rxq.h, i) ensures RxSpot(t', i) { if i < |t.rxq.h.added| { assert RxSpot(t, i); } }
    forall i: nat | Live(t'.txq.h, i) ensures TxSpot(t', i) { assert TxSpot(t, i); }
  }

  lemma GaveBackFlow(t: Chan, t': Chan, buf: nat)
    requires Flow(t) && GaveBack(t, t', buf)
    ensures Flow(t')
  {
    forall b | b in t'.mTx ensures MTxOk(t', b) { assert MTxOk(t, b); }
    forall head: nat | head in t'.rTx ensures RTxHand(t', head) && RTxOk(t', head) {
      assert RTxHand(t, head) && RTxOk(t, head);
    }
    forall i: nat | SeenR(t') <= i < |t'.sentR| ensures InFlightR(t', i) { assert InFlightR(t, i); }
    forall k: nat | t'.rxq.h.recl <= k < |t'.sentM| ensures InFlightM(t', k) { assert InFlightM(t, k); }
  }

  lemma GiveBackStep(t: Chan)
    requires Sound(t) && TEnabled(t, MReturn)
    ensures Sound(TNext(t, MReturn))
  {
    Open(t);
    var t', buf := TNext(t, MReturn), t.mRx.buf;
    RoomInRings(t, MReturn);
    AddOne(t.rxq, buf, 0);
    GaveBackPlaced(t, t', buf);
    GaveBackFlow(t, t', buf);
    Close(TNext(t, MReturn));
  }

  // ---- Obtaining buffers on the master ----

  ghost predicate GotTx(t: Chan, t': Chan, a: nat, buf: nat) {
    && t.ready
    && ReclaimedOne(t.txq.h, t'.txq.h, a) && t'.txq.n == t.txq.n && !t'.txq.dpc.Reclaiming?
    && buf == t.txq.h.added[a].cookie
    && t' == t.(txq := t'.txq, mTx := t.mTx[buf := Hand(buf, BUFFER_SIZE, Blank)], spot := t.spot[buf := MasterTx])
  }

  lemma GotTxSpots(t: Chan, t': Chan, a: nat, buf: nat)
    requires Spots(t) && GotTx(t, t', a, buf)
    ensures Spots(t') && buf in t.spot && buf !in t.mTx
  {
    assert TxSpot(t, a);
    assert buf in t.mTx ==> MTxSpot(t, buf);
    forall b | b in t'.spot ensures SpotOk(t', b) { assert SpotOk(t, b); }
    forall b | b in t'.mTx ensures MTxSpot(t', b) { assert b != buf ==> MTxSpot(t, b); }
    forall i: nat | Live(t'.rxq.h, i) ensures RxSpot(t', i) { assert RxSpot(t, i); }
    forall i: nat | Live(t'.txq.h, i) ensures TxSpot(t', i) { assert TxSpot(t, i); }
  }

  lemma GotTxKeys(t: Chan, t': Chan, a: nat, buf: nat)
    requires GotTx(t, t', a, buf) && buf in t.spot && buf !in t.mTx
    ensures t'.spot.Keys == t.spot.Keys && |t'.spot| == |t.spot| && |t'.mTx| == |t.mTx| + 1
  {
    assert t'.spot.Keys == t.spot.Keys;
    assert t'.mTx.Keys == t.mTx.Keys + {buf};
  }

  lemma GotTxPlaced(t: Chan, t': Chan, a: nat, buf: nat)
    requires Placed(t) && GotTx(t, t', a, buf)
    ensures Placed(t') && buf in t.mem
  {
    GotTxSpots(t, t', a, buf);
    GotTxKeys(t, t', a, buf);
  }

  lemma GotTxFlow(t: Chan, t': Chan, a: nat, buf: nat)
    requires Flow(t) && GotTx(t, t', a, buf) && a < SeenR(t) && buf in t.mem
    ensures Flow(t')
  {
    forall b | b in t'.mTx ensures MTxOk(t', b) { assert b != buf ==> MTxOk(t, b); }
    forall head: nat | head in t'.rTx ensures RTxHand(t', head) && RTxOk(t', head) {
      assert RTxHand(t, head) && RTxOk(t, head);
    }
    forall i: nat | SeenR(t') <= i < |t'.sentR| ensures InFlightR(t', i) { assert InFlightR(t, i); }
    forall k: nat | t'.rxq.h.recl <= k < |t'.sentM| ensures InFlightM(t', k) { assert InFlightM(t, k); }
  }

  /** A chain the remote has returned is one whose message it has seen. */
  lemma ReturnedIsSeen(t: Chan)
    requires Hands(t) && Stages(t.txq.h) && t.txq.h.recl < |t.txq.h.order|
    ensures t.txq.h.order[t.txq.h.recl] < SeenR(t)
  {
    assert ReturnedAt(t.txq.h, t.txq.h.recl);
    assert t.rRx.Got? ==> Held(t.txq.h, t.rRx.key);
  }

  lemma TxReclaimStep(t: Chan)
    requires Sound(t) && TEnabled(t, MTxReclaim)
    ensures Sound(TNext(t, MTxReclaim))
  {
    Open(t);
    var t' := TNext(t, MTxReclaim);
    ReclaimOne(t.txq, 1);
    var a := t.txq.h.order[t.txq.h.recl];
    var buf := t.txq.h.added[a].cookie;
    ReturnedIsSeen(t);
    GotTxPlaced(t, t', a, buf);
    GotTxFlow(t, t', a, buf);
    Close(TNext(t, MTxReclaim));
  }

  ghost predicate PoolTx(t: Chan, t': Chan, buf: nat, junk: Cell) {
    && buf == PoolPtr(t.pool) && BUFFER_SIZE <= t.pool.avail && t.ready && |junk.data| == PAYLOAD_MAX
    && t' == t.(pool := PoolTake(t.pool), mem := t.mem[buf := junk], dry := t'.dry,
                mTx := t.mTx[buf := Hand(buf, BUFFER_SIZE, Blank)], spot := t.spot[buf := MasterTx])
  }

  lemma PoolTxSpots(t: Chan, t': Chan, buf: nat, junk: Cell)
    requires Spots(t) && PoolTx(t, t', buf, junk) && buf !in t.spot
    ensures Spots(t')
  {
    forall b | b in t'.spot ensures SpotOk(t', b) { assert b != buf ==> SpotOk(t, b); }
    forall b | b in t'.mTx ensures MTxSpot(t', b) { assert b != buf ==> MTxSpot(t, b); }
    forall i: nat | Live(t'.rxq.h, i) ensures RxSpot(t', i) { assert RxSpot(t, i); }
    forall i: nat | Live(t'.txq.h, i) ensures TxSpot(t', i) { assert TxSpot(t, i); }
  }

  lemma PoolTxHands(t: Chan, t': Chan, buf: nat, junk: Cell)
    requires Spots(t) && PoolTx(t, t', buf, junk) && buf !in t.spot
    ensures |t'.mTx| == |t.mTx| + 1
  {
    assert buf in t.mTx ==> MTxSpot(t, buf);
    assert t'.mTx.Keys == t.mTx.Keys + {buf};
  }

  lemma PoolTxFlow(t: Chan, t': Chan, buf: nat, junk: Cell)
    requires Flow(t) && PoolTx(t, t', buf, junk) && buf !in t.mem
    ensures Flow(t')
  {
    forall b | b in t'.mTx ensures MTxOk(t', b) { assert b != buf ==> MTxOk(t, b); }
    forall head: nat | head in t'.rTx ensures RTxHand(t', head) && RTxOk(t', head) {
      assert RTxHand(t, head) && RTxOk(t, head);
    }
    forall i: nat | SeenR(t') <= i < |t'.sentR| ensures InFlightR(t', i) { assert InFlightR(t, i); }
    forall k: nat | t'.rxq.h.recl <= k < |t'.sentM| ensures InFlightM(t', k) { assert InFlightM(t, k); }
  }

  lemma PoolTxPlaced(t: Chan, t': Chan, buf: nat, junk: Cell)
    requires Placed(t) && PoolTx(t, t', buf, junk)
    ensures Placed(t') && buf !in t.mem
  {
    assert t'.spot.Keys == t.spot.Keys + {buf};
    FreshBuffer(t, t', buf, junk);
    PoolTxSpots(t, t', buf, junk);
    PoolTxHands(t, t', buf, junk);
  }

  lemma TxPoolStep(t: Chan, junk: Cell)
    requires Sound(t) && TEnabled(t, MTxPool(junk))
    ensures Sound(TNext(t, MTxPool(junk)))
  {
    Open(t);
    var t', buf := TNext(t, MTxPool(junk)), PoolPtr(t.pool);
    PoolTxPlaced(t, t', buf, junk);
    PoolTxFlow(t, t', buf, junk);
    Close(TNext(t, MTxPool(junk)));
  }

  ghost predicate GotRx(t: Chan, t': Chan, a: nat, buf: nat) {
    && t.mRx.NoRx?
    && ReclaimedOne(t.rxq.h, t'.rxq.h, a) && t'.rxq.n == t.rxq.n
    && buf == t.rxq.h.added[a].cookie
    && t' == t.(rxq := t'.rxq, mRx := Got(buf, 0, BUFFER_SIZE, false), spot := t.spot[buf := MasterRx])
  }

  lemma GotRxPlaced(t: Chan, t': Chan, a: nat, buf: nat)
    requires Placed(t) && GotRx(t, t', a, buf)
    ensures Placed(t')
  {
    assert RxSpot(t, a);
    assert t'.spot.Keys == t.spot.Keys;
    forall b | b in t'.spot ensures SpotOk(t', b) { assert SpotOk(t, b); }
    forall b | b in t'.mTx ensures MTxSpot(t', b) { assert MTxSpot(t, b); }
    forall i: nat | Live(t'.rxq.h, i) ensures RxSpot(t', i) { assert RxSpot(t, i); }
    forall i: nat | Live(t'.txq.h, i) ensures TxSpot(t', i) { assert TxSpot(t, i); }
  }

  lemma GotRxFlow(t: Chan, t': Chan, a: nat, buf: nat)
    requires Placed(t) && Flow(t) && GotRx(t, t', a, buf) && Stages(t.rxq.h)
    ensures Flow(t')
  {
    assert InFlightM(t, t.rxq.h.recl);
    forall b | b in t'.mTx ensures MTxOk(t', b) { assert MTxOk(t, b); }
    forall head: nat | head in t'.rTx ensures RTxHand(t', head) && RTxOk(t', head) {
      assert RTxHand(t, head) && RTxOk(t, head);
    }
    forall i: nat | SeenR(t') <= i < |t'.sentR| ensures InFlightR(t', i) { assert InFlightR(t, i); }
    forall k: nat | t'.rxq.h.recl <= k < |t'.sentM| ensures InFlightM(t', k) {
      assert InFlightM(t, k) && ReturnedAt(t.rxq.h, k) && ReturnedAt(t.rxq.h, t.rxq.h.recl);
    }
  }

  lemma RxReclaimStep(t: Chan)
    requires Sound(t) && TEnabled(t, MRxReclaim)
    ensures Sound(TNext(t, MRxReclaim))
  {
    Open(t);
    var t' := TNext(t, MRxReclaim);
    ReclaimOne(t.rxq, 0);
    var a := t.rxq.h.order[t.rxq.h.recl];
    var buf := t.rxq.h.added[a].cookie;
    GotRxPlaced(t, t', a, buf);
    GotRxFlow(t, t', a, buf);
    Close(TNext(t, MRxReclaim));
  }

  // ---- The remote takes and returns chains ----

  lemma SameSpot(t: Chan, t': Chan, b: nat)
    requires b in t.spot && SpotOk(t, b) && t'.spot == t.spot && t'.mTx.Keys == t.mTx.Keys
    requires SameLive(t.rxq.h, t'.rxq.h) && SameLive(t.txq.h, t'.txq.h)
    requires t'.rxq.h.added == t.rxq.h.added && t'.txq.h.added == t.txq.h.added
    requires t'.mRx.Got? == t.mRx.Got? && (t.mRx.Got? ==> t'.mRx.buf == t.mRx.buf)
    ensures SpotOk(t', b)
  {
    match t.spot[b] {
      case MasterTx => assert b in t'.mTx.Keys;
      case MasterRx =>
      case RxQ(a) => assert Live(t'.rxq.h, a);
      case TxQ(a) => assert Live(t'.txq.h, a);
    }
  }

  /** A step that changes neither the lists of live chains nor any hand of the master. */
  lemma SamePlaced(t: Chan, t': Chan)
    requires Placed(t) && SameLive(t.rxq.h, t'.rxq.h) && SameLive(t.txq.h, t'.txq.h)
    requires t'.rxq.h.added == t.rxq.h.added && t'.rxq.h.free == t.rxq.h.free && t'.rxq.h.recl == t.rxq.h.recl
    requires t'.txq.h.added == t.txq.h.added && t'.txq.h.free == t.txq.h.free && t'.txq.h.recl == t.txq.h.recl
    requires t'.rxq.n == t.rxq.n && t'.txq.n == t.txq.n && t'.txq.dpc == t.txq.dpc
    requires t'.spot == t.spot && t'.mTx.Keys == t.mTx.Keys && t'.mem.Keys == t.mem.Keys && t'.pool == t.pool
    requires t'.mRx.Got? == t.mRx.Got? && (t.mRx.Got? ==> t'.mRx.buf == t.mRx.buf)
    requires t'.filled == t.filled && t'.ready == t.ready
    requires forall b :: b in t'.mem ==> |t'.mem[b].data| == PAYLOAD_MAX
    ensures Placed(t')
  {
    assert |t'.mTx| == |t'.mTx.Keys| == |t.mTx.Keys| == |t.mTx|;
    forall b | b in t'.spot ensures SpotOk(t', b) { SameSpot(t, t', b); }
    forall b | b in t'.mTx ensures MTxSpot(t', b) { assert MTxSpot(t, b); }
    forall i: nat | Live(t'.rxq.h, i) ensures RxSpot(t', i) { assert RxSpot(t, i); }
    forall i: nat | Live(t'.txq.h, i) ensures TxSpot(t', i) { assert TxSpot(t, i); }
  }

  ghost predicate RTook(t: Chan, t': Chan, head: nat) {
    && TookOne(t.rxq.h, t'.rxq.h, head) && t'.rxq.n == t.rxq.n
    && t' == t.(rxq := t'.rxq, rTx := t.rTx[head := Hand(t.rxq.h.added[t.rxq.h.taken].cookie, BUFFER_SIZE, Blank)])
  }

  lemma RTookHands(t: Chan, t': Chan, head: nat)
    requires Placed(t) && Hands(t) && Contents(t) && RTook(t, t', head)
    ensures Hands(t') && Contents(t')
  {
    assert RxSpot(t, t.rxq.h.taken);
    forall b | b in t'.mTx ensures MTxOk(t', b) { assert MTxOk(t, b); }
    forall i: nat | i in t'.rTx ensures RTxHand(t', i) && RTxOk(t', i) {
      assert i != head ==> Held(t.rxq.h, i) && RTxHand(t, i) && RTxOk(t, i);
    }
  }

  lemma RTookFifo(t: Chan, t': Chan, head: nat)
    requires FifoR(t) && FifoM(t) && RTook(t, t', head)
    ensures FifoR(t') && FifoM(t')
  {
    forall i: nat | SeenR(t') <= i < |t'.sentR| ensures InFlightR(t', i) { assert InFlightR(t, i); }
    forall k: nat | t'.rxq.h.recl <= k < |t'.sentM| ensures InFlightM(t', k) { assert InFlightM(t, k); }
  }

  lemma RTxTakeStep(t: Chan)
    requires Sound(t) && TEnabled(t, RTxTake)
    ensures Sound(TNext(t, RTxTake))
  {
    Open(t);
    var t', head := TNext(t, RTxTake), NextAvail(t.rxq.ring, t.rxq.dev);
    TakeOne(t.rxq, 0);
    SamePlaced(t, t');
    RTookHands(t, t', head);
    RTookFifo(t, t', head);
    Close(TNext(t, RTxTake));
  }

  ghost predicate RRxTook(t: Chan, t': Chan, head: nat) {
    && t.rRx.NoRx?
    && TookOne(t.txq.h, t'.txq.h, head) && t'.txq.n == t.txq.n && t'.txq.dpc == t.txq.dpc
    && t' == t.(txq := t'.txq, rRx := Got(t.txq.h.added[t.txq.h.taken].cookie, head, BUFFER_SIZE, false))
  }

  lemma RRxTookFlow(t: Chan, t': Chan, head: nat)
    requires Flow(t) && RRxTook(t, t', head)
    ensures Flow(t')
  {
    forall b | b in t'.mTx ensures MTxOk(t', b) { assert MTxOk(t, b); }
    forall i: nat | i in t'.rTx ensures RTxHand(t', i) && RTxOk(t', i) { assert RTxHand(t, i) && RTxOk(t, i); }
    forall i: nat | SeenR(t') <= i < |t'.sentR| ensures InFlightR(t', i) { assert InFlightR(t, i); }
    forall k: nat | t'.rxq.h.recl <= k < |t'.sentM| ensures InFlightM(t', k) { assert InFlightM(t, k); }
  }

  lemma RRxTakeStep(t: Chan)
    requires Sound(t) && TEnabled(t, RRxTake)
    ensures Sound(TNext(t, RRxTake))
  {
    Open(t);
    var t', head := TNext(t, RRxTake), NextAvail(t.txq.ring, t.txq.dev);
    TakeOne(t.txq, 1);
    SamePlaced(t, t');
    RRxTookFlow(t, t', head);
    Close(TNext(t, RRxTake));
  }

  ghost predicate RSent(t: Chan, t': Chan, head: nat) {
    && head in t.rTx && t.rTx[head].tx.Filled?
    && ReturnedOne(t.rxq.h, t'.rxq.h, head) && t'.rxq.n == t.rxq.n
    && t' == t.(rxq := t'.rxq, rTx := t.rTx - {head}, sentM := t.sentM + [t.rTx[head].tx.msg])
  }

  lemma RSentHands(t: Chan, t': Chan, head: nat)
    requires Hands(t) && Contents(t) && RSent(t, t', head)
    ensures Hands(t') && Contents(t')
  {
    forall b | b in t'.mTx ensures MTxOk(t', b) { assert MTxOk(t, b); }
    forall i: nat | i in t'.rTx ensures RTxHand(t', i) && RTxOk(t', i) {
      assert Held(t'.rxq.h, i) && RTxHand(t, i) && RTxOk(t, i);
    }
  }

  lemma RSentFifoR(t: Chan, t': Chan, head: nat)
    requires FifoR(t) && RSent(t, t', head)
    ensures FifoR(t')
  {
    forall i: nat | SeenR(t') <= i < |t'.sentR| ensures InFlightR(t', i) { assert InFlightR(t, i); }
  }

  lemma RSentFifoM(t: Chan, t': Chan, head: nat)
    requires Hands(t) && Contents(t) && FifoM(t) && RSent(t, t', head)
    ensures FifoM(t')
  {
    assert RTxHand(t, head) && RTxOk(t, head);
    forall k: nat | t'.rxq.h.recl <= k < |t'.sentM| ensures InFlightM(t', k) {
      assert k < |t.sentM| ==> InFlightM(t, k);
    }
  }

  lemma RSendStep(t: Chan, head: nat)
    requires Sound(t) && TEnabled(t, RSend(head))
    ensures Sound(TNext(t, RSend(head)))
  {
    Open(t);
    var t' := TNext(t, RSend(head));
    assert Held(t.rxq.h, head) && RTxHand(t, head);
    ReturnOne(t.rxq, head, 0);
    SamePlaced(t, t');
    RSentHands(t, t', head);
    RSentFifoR(t, t', head);
    RSentFifoM(t, t', head);
    Close(TNext(t, RSend(head)));
  }

  ghost predicate RGaveBack(t: Chan, t': Chan) {
    && t.rRx.Got? && t.rRx.seen
    && ReturnedOne(t.txq.h, t'.txq.h, t.rRx.key) && t'.txq.n == t.txq.n && t'.txq.dpc == t.txq.dpc
    && t' == t.(txq := t'.txq, rRx := NoRx)
  }

  lemma RGaveBackFlow(t: Chan, t': Chan)
    requires Flow(t) && RGaveBack(t, t')
    ensures Flow(t')
  {
    forall b | b in t'.mTx ensures MTxOk(t', b) { assert MTxOk(t, b); }
    forall i: nat | i in t'.rTx ensures RTxHand(t', i) && RTxOk(t', i) { assert RTxHand(t, i) && RTxOk(t, i); }
    forall i: nat | SeenR(t') <= i < |t'.sentR| ensures InFlightR(t', i) { assert InFlightR(t, i); }
    forall k: nat | t'.rxq.h.recl <= k < |t'.sentM| ensures InFlightM(t', k) { assert InFlightM(t, k); }
  }

  lemma RReturnStep(t: Chan)
    requires Sound(t) && TEnabled(t, RReturn)
    ensures Sound(TNext(t, RReturn))
  {
    Open(t);
    var t' := TNext(t, RReturn);
    assert Held(t.txq.h, t.rRx.key);
    ReturnOne(t.txq, t.rRx.key, 1);
    SamePlaced(t, t');
    RGaveBackFlow(t, t');
    Close(TNext(t, RReturn));
  }

  // ---- Writing and reading buffers ----

  /** Header then payload then reading back yields the message. */
  lemma MessageRoundTrip(c: Cell, m: Msg)
    requires |m.data| <= PAYLOAD_MAX == |c.data|
    ensures TxOk(WriteHeader(c, m), Headed(m))
    ensures |WriteHeader(c, m).data| == PAYLOAD_MAX
    ensures TxOk(c, Headed(m)) ==> ReadMsg(WritePayload(c, m.data)) == m
    ensures |WritePayload(c, m.data).data| == PAYLOAD_MAX
  {}

  /** Which field holds what: a receiver finds the source, the destination, the length and then the payload,
      and the bytes of the buffer behind it are those that were there. */
  lemma MessageFields(c: Cell, m: Msg)
    requires |m.data| <= PAYLOAD_MAX == |c.data|
    ensures var c' := WritePayload(WriteHeader(c, m), m.data);
      && c'.src == m.src && c'.dst == m.dst && c'.len == |m.data| && |c'.data| == 496
      && c'.data[..|m.data|] == m.data && c'.data[|m.data|..] == c.data[|m.data|..]
  {}

  /** One buffer in a sender's hands is rewritten. */
  ghost predicate Wrote(t: Chan, t': Chan, buf: nat, c: Cell) {
    && buf in t.mem && |c.data| == PAYLOAD_MAX
    && t' == t.(mem := t.mem[buf := c], mTx := t'.mTx, rTx := t'.rTx)
  }

  ghost predicate HeldLive(h: History) {
    forall i: nat :: Held(h, i) ==> Live(h, ChainOf(h, i))
  }

  ghost predicate HeldInjective(h: History) {
    forall i: nat, j: nat :: Held(h, i) && Held(h, j) && ChainOf(h, i) == ChainOf(h, j) ==> i == j
  }

  lemma QueueHeldLive(q: Sys)
    requires Inv(q)
    ensures HeldLive(q.h) && HeldInjective(q.h)
  {
    forall i: nat | Held(q.h, i) ensures Live(q.h, ChainOf(q.h, i)) { HeldChain(q, i); }
    forall i: nat, j: nat | Held(q.h, i) && Held(q.h, j) && ChainOf(q.h, i) == ChainOf(q.h, j) ensures i == j {
      HeldChain(q, i);
      HeldChain(q, j);
    }
  }

  /** A buffer in the remote's hands for sending belongs to a chain not yet returned. */
  lemma HeldSpot(t: Chan, head: nat)
    requires Placed(t) && Hands(t) && head in t.rTx && HeldLive(t.rxq.h)
    ensures var a := ChainOf(t.rxq.h, head);
      && t.rTx[head].buf in t.spot && t.spot[t.rTx[head].buf] == RxQ(a)
      && a < |t.rxq.h.stage| && t.rxq.h.stage[a].Pending?
  {
    assert Held(t.rxq.h, head) && RTxHand(t, head);
    assert Live(t.rxq.h, ChainOf(t.rxq.h, head)) && RxSpot(t, ChainOf(t.rxq.h, head));
  }

  lemma MWroteHands(t: Chan, t': Chan, buf: nat, c: Cell, tx: Tx)
    requires Placed(t) && Hands(t) && Contents(t) && HeldLive(t.rxq.h) && buf in t.mTx && Wrote(t, t', buf, c) &&
      TxOk(c, tx)
    requires t'.rTx == t.rTx && t'.mTx == t.mTx[buf := t.mTx[buf].(tx := tx)]
    ensures Hands(t') && Contents(t')
  {
    assert MTxSpot(t, buf);
    forall b | b in t'.mTx ensures MTxOk(t', b) { assert b != buf ==> MTxOk(t, b); }
    forall i: nat | i in t'.rTx ensures RTxHand(t', i) && RTxOk(t', i) {
      assert RTxHand(t, i) && RTxOk(t, i);
      HeldSpot(t, i);
    }
  }

  lemma MWroteFifo(t: Chan, t': Chan, buf: nat, c: Cell)
    requires Spots(t) && FifoR(t) && FifoM(t) && buf in t.mTx && Wrote(t, t', buf, c)
    ensures FifoR(t') && FifoM(t')
  {
    assert MTxSpot(t, buf);
    forall i: nat | SeenR(t') <= i < |t'.sentR| ensures InFlightR(t', i) {
      assert InFlightR(t, i) && TxSpot(t, i);
    }
    forall k: nat | t'.rxq.h.recl <= k < |t'.sentM| ensures InFlightM(t', k) {
      assert InFlightM(t, k) && RxSpot(t, t.rxq.h.order[k]);
    }
  }

  lemma MWroteStep(t: Chan, t': Chan, buf: nat, c: Cell, tx: Tx)
    requires Sound(t) && buf in t.mTx && Wrote(t, t', buf, c) && TxOk(c, tx)
    requires t'.rTx == t.rTx && t'.mTx == t.mTx[buf := t.mTx[buf].(tx := tx)]
    ensures Sound(t')
  {
    Open(t);
    QueueHeldLive(t.rxq);
    MWroteHands(t, t', buf, c, tx);
    MWroteFifo(t, t', buf, c);
    WrotePlaced(t, t', buf, c);
    Close(t');
  }

  lemma MHeaderStep(t: Chan, buf: nat, msg: Msg, t': Chan)
    requires Sound(t) && TEnabled(t, MHeader(buf, msg)) && t' == TNext(t, MHeader(buf, msg))
    ensures Sound(t')
  {
    Open(t);
    assert MTxOk(t, buf);
    MessageRoundTrip(t.mem[buf], msg);
    MWroteStep(t, t', buf, WriteHeader(t.mem[buf], msg), Headed(msg));
  }

  lemma MPayloadStep(t: Chan, buf: nat, t': Chan)
    requires Sound(t) && TEnabled(t, MPayload(buf)) && t' == TNext(t, MPayload(buf))
    ensures Sound(t')
  {
    Open(t);
    var msg := t.mTx[buf].tx.msg;
    assert MTxOk(t, buf);
    MessageRoundTrip(t.mem[buf], msg);
    MWroteStep(t, t', buf, WritePayload(t.mem[buf], msg.data), Filled(msg));
  }

  lemma RWroteHands(t: Chan, t': Chan, head: nat, c: Cell, tx: Tx)
    requires Hands(t) && head in t.rTx && Wrote(t, t', t.rTx[head].buf, c)
    requires t'.mTx == t.mTx && t'.rTx == t.rTx[head := t.rTx[head].(tx := tx)]
    ensures Hands(t')
  {
    forall i: nat | i in t'.rTx ensures RTxHand(t', i) { assert RTxHand(t, i); }
  }

  lemma RWroteContents(t: Chan, t': Chan, head: nat, c: Cell, tx: Tx)
    requires Placed(t) && Hands(t) && Contents(t) && HeldLive(t.rxq.h) && head in t.rTx
    requires Wrote(t, t', t.rTx[head].buf, c) && TxOk(c, tx)
    requires t'.mTx == t.mTx && t'.rTx == t.rTx[head := t.rTx[head].(tx := tx)]
    requires HeldInjective(t.rxq.h)
    ensures Contents(t')
  {
    HeldSpot(t, head);
    forall b | b in t'.mTx ensures MTxOk(t', b) { assert MTxSpot(t, b) && MTxOk(t, b); }
    forall i: nat | i in t'.rTx ensures RTxOk(t', i) {
      assert RTxOk(t, i) && Held(t.rxq.h, i) && Held(t.rxq.h, head);
      HeldSpot(t, i);
    }
  }

  lemma RWroteFifoR(t: Chan, t': Chan, buf: nat, c: Cell)
    requires Spots(t) && FifoR(t) && Wrote(t, t', buf, c) && buf in t.spot && t.spot[buf].RxQ?
    ensures FifoR(t')
  {
    forall i: nat | SeenR(t') <= i < |t'.sentR| ensures InFlightR(t', i) {
      assert InFlightR(t, i) && TxSpot(t, i);
    }
  }

  lemma RWroteFifoM(t: Chan, t': Chan, buf: nat, c: Cell, a: nat)
    requires Spots(t) && FifoM(t) && Stages(t.rxq.h) && Wrote(t, t', buf, c) && buf in t.spot && t.spot[buf] == RxQ(a)
    requires a < |t.rxq.h.stage| && t.rxq.h.stage[a].Pending?
    ensures FifoM(t')
  {
    forall k: nat | t'.rxq.h.recl <= k < |t'.sentM| ensures InFlightM(t', k) {
      assert InFlightM(t, k) && RxSpot(t, t.rxq.h.order[k]) && ReturnedAt(t.rxq.h, k);
    }
  }

  lemma RWroteStep(t: Chan, t': Chan, head: nat, c: Cell, tx: Tx)
    requires Sound(t) && head in t.rTx && Wrote(t, t', t.rTx[head].buf, c) && TxOk(c, tx)
    requires t'.mTx == t.mTx && t'.rTx == t.rTx[head := t.rTx[head].(tx := tx)]
    ensures Sound(t')
  {
    Open(t);
    QueueHeldLive(t.rxq);
    RWroteHands(t, t', head, c, tx);
    RWroteContents(t, t', head, c, tx);
    HeldSpot(t, head);
    RWroteFifoR(t, t', t.rTx[head].buf, c);
    RWroteFifoM(t, t', t.rTx[head].buf, c, ChainOf(t.rxq.h, head));
    WrotePlaced(t, t', t.rTx[head].buf, c);
    Close(t');
  }

  lemma WrotePlaced(t: Chan, t': Chan, buf: nat, c: Cell)
    requires Placed(t) && Wrote(t, t', buf, c) && t'.mTx.Keys == t.mTx.Keys
    ensures Placed(t')
  {
    assert t'.mem.Keys == t.mem.Keys;
    SamePlaced(t, t');
  }

  lemma RHeaderStep(t: Chan, head: nat, msg: Msg)
    requires Sound(t) && TEnabled(t, RHeader(head, msg))
    ensures Sound(TNext(t, RHeader(head, msg)))
  {
    Open(t);
    var t', buf := TNext(t, RHeader(head, msg)), t.rTx[head].buf;
    assert RTxOk(t, head);
    MessageRoundTrip(t.mem[buf], msg);
    RWroteStep(t, t', head, WriteHeader(t.mem[buf], msg), Headed(msg));
  }

  lemma RPayloadStep(t: Chan, head: nat)
    requires Sound(t) && TEnabled(t, RPayload(head))
    ensures Sound(TNext(t, RPayload(head)))
  {
    Open(t);
    var t', buf, msg := TNext(t, RPayload(head)), t.rTx[head].buf, t.rTx[head].tx.msg;
    assert RTxOk(t, head);
    MessageRoundTrip(t.mem[buf], msg);
    RWroteStep(t, t', head, WritePayload(t.mem[buf], msg.data), Filled(msg));
  }

  ghost predicate MSaw(t: Chan, t': Chan) {
    && t.mRx.Got? && !t.mRx.seen && t.mRx.buf in t.mem
    && t' == t.(gotM := t.gotM + [ReadMsg(t.mem[t.mRx.buf])], mRx := t.mRx.(seen := true))
  }

  lemma MSawFlow(t: Chan, t': Chan)
    requires Flow(t) && MSaw(t, t')
    ensures Flow(t')
  {
    forall b | b in t'.mTx ensures MTxOk(t', b) { assert MTxOk(t, b); }
    forall i: nat | i in t'.rTx ensures RTxHand(t', i) && RTxOk(t', i) { assert RTxHand(t, i) && RTxOk(t, i); }
    forall i: nat | SeenR(t') <= i < |t'.sentR| ensures InFlightR(t', i) { assert InFlightR(t, i); }
    forall k: nat | t'.rxq.h.recl <= k < |t'.sentM| ensures InFlightM(t', k) { assert InFlightM(t, k); }
  }

  lemma MReadStep(t: Chan)
    requires Sound(t) && TEnabled(t, MRead)
    ensures Sound(TNext(t, MRead))
  {
    Open(t);
    var t' := TNext(t, MRead);
    MSawFlow(t, t');
    SamePlaced(t, t');
    Close(TNext(t, MRead));
  }

  ghost predicate RSaw(t: Chan, t': Chan) {
    && t.rRx.Got? && !t.rRx.seen && t.rRx.buf in t.mem
    && t' == t.(gotR := t.gotR + [ReadMsg(t.mem[t.rRx.buf])], rRx := t.rRx.(seen := true))
  }

  lemma RSawFlow(t: Chan, t': Chan)
    requires Flow(t) && RSaw(t, t')
    ensures Flow(t')
  {
    assert InFlightR(t, SeenR(t));
    forall b | b in t'.mTx ensures MTxOk(t', b) { assert MTxOk(t, b); }
    forall i: nat | i in t'.rTx ensures RTxHand(t', i) && RTxOk(t', i) { assert RTxHand(t, i) && RTxOk(t, i); }
    forall i: nat | SeenR(t') <= i < |t'.sentR| ensures InFlightR(t', i) { assert InFlightR(t, i); }
    forall k: nat | t'.rxq.h.recl <= k < |t'.sentM| ensures InFlightM(t', k) { assert InFlightM(t, k); }
  }

  lemma RReadStep(t: Chan)
    requires Sound(t) && TEnabled(t, RRead)
    ensures Sound(TNext(t, RRead))
  {
    Open(t);
    var t' := TNext(t, RRead);
    assert InFlightR(t, SeenR(t));
    RSawFlow(t, t');
    SamePlaced(t, t');
    Close(TNext(t, RRead));
  }

  // ---- All events ----

  lemma MasterAdds(t: Chan, ev: Ev, t': Chan)
    requires Sound(t) && TEnabled(t, ev) && t' == TNext(t, ev) && (ev.MSend? ==> 1 <= t.txq.drv.freeCnt)
    requires ev.MPost? || ev.MSend? || ev.MReturn?
    ensures Sound(t')
  {
    match ev {
      case MPost => PostStep(t);
      case MSend(buf) => SendStep(t, buf);
      case MReturn => GiveBackStep(t);
    }
  }

  lemma MasterTakes(t: Chan, ev: Ev, t': Chan)
    requires Sound(t) && TEnabled(t, ev) && t' == TNext(t, ev) && (ev.MTxReclaim? || ev.MTxPool? || ev.MRxReclaim?)
    ensures Sound(t')
  {
    match ev {
      case MTxReclaim => TxReclaimStep(t);
      case MTxPool(junk) => TxPoolStep(t, junk);
      case MRxReclaim => RxReclaimStep(t);
    }
  }

  lemma RemoteMoves(t: Chan, ev: Ev, t': Chan)
    requires Sound(t) && TEnabled(t, ev) && t' == TNext(t, ev)
    requires ev.RTxTake? || ev.RRxTake? || ev.RSend? || ev.RReturn?
    ensures Sound(t')
  {
    match ev {
      case RTxTake => RTxTakeStep(t);
      case RRxTake => RRxTakeStep(t);
      case RSend(head) => RSendStep(t, head);
      case RReturn => RReturnStep(t);
    }
  }

  lemma MasterWrites(t: Chan, ev: Ev, t': Chan)
    requires Sound(t) && TEnabled(t, ev) && t' == TNext(t, ev) && (ev.MHeader? || ev.MPayload?)
    ensures Sound(t')
  {
    match ev {
      case MHeader(buf, msg) => MHeaderStep(t, buf, msg, t');
      case MPayload(buf) => MPayloadStep(t, buf, t');
    }
  }

  lemma MasterReads(t: Chan, ev: Ev, t': Chan)
    requires Sound(t) && TEnabled(t, ev) && t' == TNext(t, ev) && ev.MRead?
    ensures Sound(t')
  {
    MReadStep(t);
  }

  lemma RemoteContents(t: Chan, ev: Ev, t': Chan)
    requires Sound(t) && TEnabled(t, ev) && t' == TNext(t, ev) && (ev.RHeader? || ev.RPayload? || ev.RRead?)
    ensures Sound(t')
  {
    match ev {
      case RHeader(head, msg) => RHeaderStep(t, head, msg);
      case RPayload(head) => RPayloadStep(t, head);
      case RRead => RReadStep(t);
    }
  }

  lemma QuietMoves(t: Chan, ev: Ev, t': Chan)
    requires Sound(t) && TEnabled(t, ev) && t' == TNext(t, ev) && QuietEv(ev)
    ensures Sound(t')
  {
    QuietStep(t, ev);
  }

  /** Every step keeps the invariant. */
  lemma TStep(t: Chan, ev: Ev, t': Chan)
    requires Sound(t) && TEnabled(t, ev) && t' == TNext(t, ev) && (ev.MSend? ==> 1 <= t.txq.drv.freeCnt)
    ensures Sound(t')
  {
    if QuietEv(ev) {
      QuietMoves(t, ev, t');
    } else if ev.RTxTake? || ev.RRxTake? || ev.RSend? || ev.RReturn? {
      RemoteMoves(t, ev, t');
    } else if ev.RHeader? || ev.RPayload? || ev.RRead? {
      RemoteContents(t, ev, t');
    } else if ev.MPost? || ev.MSend? || ev.MReturn? {
      MasterAdds(t, ev, t');
    } else if ev.MRead? {
      MasterReads(t, ev, t');
    } else if ev.MHeader? || ev.MPayload? {
      MasterWrites(t, ev, t');
    } else {
      MasterTakes(t, ev, t');
    }
  }
}
