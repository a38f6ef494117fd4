/** What every step of the transport keeps: placement of buffers, lengths, contents, logs. */
module RpInvariant {
  import opened Wrappers
  import opened QueueState
  import opened QueueInvariant
  import opened RpState

  /** One descriptor, of the full buffer size, with the buffer itself as cookie. */
  ghost predicate Single(c: Chain, readable: nat) {
    |c.idxs| == 1 && c.bufs == [Buf(c.cookie, BUFFER_SIZE)] && c.readable == readable
  }

  ghost predicate Singles(h: History, readable: nat) {
    && (forall a: nat :: a < |h.added| ==> Single(h.added[a], readable))
    && (forall k: nat :: k < |h.lens| ==> h.lens[k] == BUFFER_SIZE)
  }

  ghost predicate InPool(p: Pool, buf: nat) {
    p.base <= buf && (buf - p.base) % BUFFER_SIZE == 0 && buf + BUFFER_SIZE <= PoolPtr(p)
  }

  ghost predicate PoolOk(t: Chan) {
    && 1 <= t.pool.base
    && t.pool.avail <= t.pool.size
    && |t.spot| * BUFFER_SIZE == t.pool.size - t.pool.avail
    && t.spot.Keys == t.mem.Keys
    && (forall b :: b in t.spot ==> InPool(t.pool, b))
    && (forall b :: b in t.mem ==> |t.mem[b].data| == PAYLOAD_MAX)
  }

  /** The recorded place of a buffer is where it is. */
  ghost predicate SpotOk(t: Chan, b: nat) {
    && b in t.spot
    && match t.spot[b]
       case MasterTx => b in t.mTx
       case MasterRx => t.mRx.Got? && t.mRx.buf == b
       case RxQ(a) => Live(t.rxq.h, a) && t.rxq.h.added[a].cookie == b
       case TxQ(a) => Live(t.txq.h, a) && t.txq.h.added[a].cookie == b
  }

  ghost predicate RxSpot(t: Chan, a: nat)
    requires a < |t.rxq.h.added|
  {
    var b := t.rxq.h.added[a].cookie;
    b in t.spot && t.spot[b] == RxQ(a)
  }

  ghost predicate TxSpot(t: Chan, a: nat)
    requires a < |t.txq.h.added|
  {
    var b := t.txq.h.added[a].cookie;
    b in t.spot && t.spot[b] == TxQ(a)
  }

  ghost predicate MTxSpot(t: Chan, b: nat) {
    b in t.spot && t.spot[b] == MasterTx
  }

  /** Every pool buffer that was handed out is in exactly one place. */
  ghost predicate Spots(t: Chan) {
    && (forall b :: b in t.spot ==> SpotOk(t, b))
    && (forall b :: b in t.mTx ==> MTxSpot(t, b))
    && (t.mRx.Got? ==> t.mRx.buf in t.spot && t.spot[t.mRx.buf] == MasterRx)
    && (forall a: nat :: Live(t.rxq.h, a) ==> RxSpot(t, a))
    && (forall a: nat :: Live(t.txq.h, a) ==> TxSpot(t, a))
  }

  ghost function Outstanding(h: History): int { |h.added| - h.recl }

  ghost predicate Counts(t: Chan) {
    && Outstanding(t.rxq.h) + (if t.mRx.Got? then 1 else 0) == t.filled <= t.rxq.n
    && Outstanding(t.txq.h) + |t.mTx| + t.filled == |t.spot|
    && |t.rxq.h.free| == t.rxq.n - Outstanding(t.rxq.h)
    && |t.txq.h.free| == t.txq.n - Outstanding(t.txq.h)
    && (t.ready ==> t.filled == t.rxq.n)
    && (t.txq.dpc.Reclaiming? || |t.mTx| > 0 ==> t.ready)
  }

  ghost predicate RTxHand(t: Chan, head: nat) {
    && head in t.rTx
    && ChainOf(t.rxq.h, head) < |t.rxq.h.added|
    && t.rTx[head].buf == t.rxq.h.added[ChainOf(t.rxq.h, head)].cookie
    && t.rTx[head].len == BUFFER_SIZE
  }

  /** The remote's hands are exactly the held chains; every length in a hand is the full size. */
  ghost predicate Hands(t: Chan) {
    && (forall head: nat :: Held(t.rxq.h, head) <==> head in t.rTx)
    && (forall head: nat :: head in t.rTx ==> RTxHand(t, head))
    && (forall head: nat :: Held(t.txq.h, head) <==> t.rRx.Got? && t.rRx.key == head)
    && (t.rRx.Got? ==>
          && ChainOf(t.txq.h, t.rRx.key) == t.txq.h.taken - 1
          && t.txq.h.taken <= |t.txq.h.added|
          && t.rRx.buf == t.txq.h.added[t.txq.h.taken - 1].cookie
          && t.rRx.len == BUFFER_SIZE)
    && (forall b :: b in t.mTx ==> t.mTx[b].buf == b && t.mTx[b].len == BUFFER_SIZE)
    && (t.mRx.Got? ==> t.mRx.len == BUFFER_SIZE)
  }

  ghost predicate TxOk(c: Cell, tx: Tx) {
    match tx
    case Blank => true
    case Headed(m) => |m.data| <= PAYLOAD_MAX && c.src == m.src && c.dst == m.dst && c.len == |m.data|
    case Filled(m) => |m.data| <= PAYLOAD_MAX && ReadMsg(c) == m
  }

  ghost predicate MTxOk(t: Chan, b: nat) {
    b in t.mTx && b in t.mem && TxOk(t.mem[b], t.mTx[b].tx)
  }

  ghost predicate RTxOk(t: Chan, head: nat) {
    head in t.rTx && t.rTx[head].buf in t.mem && TxOk(t.mem[t.rTx[head].buf], t.rTx[head].tx)
  }

  ghost predicate Contents(t: Chan) {
    && (forall b :: b in t.mTx ==> MTxOk(t, b))
    && (forall head: nat :: head in t.rTx ==> RTxOk(t, head))
  }

  /** Messages the remote's receive loop has looked at, and the master's. */
  ghost function SeenR(t: Chan): int { t.txq.h.taken - (if t.rRx.Got? && !t.rRx.seen then 1 else 0) }
  ghost function SeenM(t: Chan): int { t.rxq.h.recl - (if t.mRx.Got? && !t.mRx.seen then 1 else 0) }

  ghost predicate InFlightR(t: Chan, a: nat) {
    && Live(t.txq.h, a) && a < |t.sentR|
    && t.txq.h.added[a].cookie in t.mem
    && ReadMsg(t.mem[t.txq.h.added[a].cookie]) == t.sentR[a]
  }

  ghost predicate InFlightM(t: Chan, k: nat) {
    && k < |t.rxq.h.order| && k < |t.sentM|
    && Live(t.rxq.h, t.rxq.h.order[k])
    && t.rxq.h.added[t.rxq.h.order[k]].cookie in t.mem
    && ReadMsg(t.mem[t.rxq.h.added[t.rxq.h.order[k]].cookie]) == t.sentM[k]
  }

  /** The receive logs are prefixes of the send logs, and what is in flight is unaltered. */
  ghost predicate FifoR(t: Chan) {
    && |t.sentR| == |t.txq.h.added|
    && 0 <= SeenR(t) <= |t.sentR|
    && t.gotR == t.sentR[..SeenR(t)]
    && (forall a: nat :: SeenR(t) <= a < |t.sentR| ==> InFlightR(t, a))
  }

  ghost predicate FifoM(t: Chan) {
    && |t.sentM| == |t.rxq.h.order|
    && 0 <= SeenM(t) <= |t.sentM|
    && t.gotM == t.sentM[..SeenM(t)]
    && (forall k: nat :: t.rxq.h.recl <= k < |t.sentM| ==> InFlightM(t, k))
    && (t.mRx.Got? && !t.mRx.seen ==>
          t.mRx.buf in t.mem && t.rxq.h.recl <= |t.sentM| && ReadMsg(t.mem[t.mRx.buf]) == t.sentM[t.rxq.h.recl - 1])
  }

  ghost predicate QueuesOk(t: Chan) {
    Inv(t.rxq) && Inv(t.txq) && Singles(t.rxq.h, 0) && Singles(t.txq.h, 1)
  }

  /** Where buffers are and how many. */
  ghost predicate Placed(t: Chan) {
    PoolOk(t) && Spots(t) && Counts(t)
  }

  /** What buffers contain and which messages have passed. */
  ghost predicate Flow(t: Chan) {
    Hands(t) && Contents(t) && FifoR(t) && FifoM(t)
  }

  ghost predicate TInv(t: Chan) {
    QueuesOk(t) && Placed(t) && Flow(t)
  }

  ghost predicate Same(t: Chan, u: Chan) { t == u }

  /** The invariant, stated so that callers carry it without unfolding it. */
  ghost predicate Sound(t: Chan) {
    forall u: Chan :: Same(t, u) ==> TInv(u)
  }

  lemma Open(t: Chan)
    requires Sound(t)
    ensures TInv(t)
  {
    assert Same(t, t);
  }

  lemma Close(t: Chan)
    requires TInv(t)
    ensures Sound(t)
  {}

  /** A pool of this size holds no more buffers than two rings of n0 and n1 entries. */
  ghost predicate NoLarger(size: nat, n0: nat, n1: nat) { size < (n0 + n1 + 1) * BUFFER_SIZE }

  ghost predicate PoolFits(t: Chan) { NoLarger(t.pool.size, t.rxq.n, t.txq.n) }

  lemma RoomInRings(t: Chan, ev: Ev)
    requires TInv(t) && TEnabled(t, ev)
    requires ev.MSend? ==> PoolFits(t)
    ensures RxEvent(t, ev).Some? ==> Enabled(t.rxq, RxEvent(t, ev).value)
    ensures TxEvent(t, ev).Some? ==> Enabled(t.txq, TxEvent(t, ev).value)
  {
    match ev {
      case MSend(buf) =>
        assert buf in t.mTx && MTxSpot(t, buf) && InPool(t.pool, buf);
        assert |t.mTx| >= 1 by { assert t.mTx.Keys != {}; }
      case MReturn => assert InPool(t.pool, t.mRx.buf);
      case RSend(head) => assert Held(t.rxq.h, head);
      case RReturn => assert Held(t.txq.h, t.rRx.key);
      case _ =>
    }
  }

  /** Returning a receive buffer never meets a full ring, and neither does a send if the pool is
      no larger than the two rings together: every enabled event is a legal step of its queue. */
  lemma RingsNeverFull(t: Chan, ev: Ev)
    requires Sound(t) && TEnabled(t, ev) && (ev.MSend? ==> PoolFits(t))
    ensures RxEvent(t, ev).Some? ==> Enabled(t.rxq, RxEvent(t, ev).value)
    ensures TxEvent(t, ev).Some? ==> Enabled(t.txq, TxEvent(t, ev).value)
  {
    Open(t);
    RoomInRings(t, ev);
  }

  // ---- Events that touch no buffer ----

  predicate QuietEv(ev: Ev) {
    ev.MRxBump? || ev.MReady? || ev.MTxLook? || ev.MTxBump? || ev.MRxLook? || ev.RTxLook? || ev.RTxBump?
    || ev.RRxLook? || ev.RRxBump? || ev.Signal?
  }

  /** The logs of a queue that a quiet step leaves alone. */
  ghost predicate SameLogs(h: History, h': History) {
    && h'.free == h.free && h'.place == h.place && h'.added == h.added && h'.stage == h.stage
    && h'.taken == h.taken && h'.order == h.order && h'.lens == h.lens && h'.recl == h.recl
  }

  lemma SameLogsFacts(h: History, h': History)
    requires SameLogs(h, h')
    ensures forall a: nat :: Live(h', a) <==> Live(h, a)
    ensures forall head: nat :: Held(h', head) <==> Held(h, head)
    ensures forall head: nat :: ChainOf(h', head) == ChainOf(h, head)
  {}

  lemma QuietQueue(q: Sys, e: Event)
    requires Inv(q) && Enabled(q, e) && !e.AddWrite? && !e.Reclaim? && !e.Take? && !e.RetWrite?
    ensures Inv(Next(q, e)) && SameLogs(q.h, Next(q, e).h) && Next(q, e).n == q.n
    ensures Next(q, e).dpc.Reclaiming? ==> q.dpc.Reclaiming? || e.UsedLook?
  {
    StepInv(q, e);
  }

  lemma QuietParts(t: Chan, ev: Ev)
    requires TEnabled(t, ev) && QuietEv(ev)
    ensures var t' := TNext(t, ev);
      && t' == t.(rxq := t'.rxq, txq := t'.txq, ready := t'.ready, dry := t'.dry)
      && (t.ready || ev.MReady?) == t'.ready
      && (ev.MReady? ==> t.filled == t.rxq.n)
      && (RxEvent(t, ev).None? ==> t'.rxq == t.rxq)
      && (TxEvent(t, ev).None? ==> t'.txq == t.txq)
      && (RxEvent(t, ev).Some? ==> t'.rxq == Next(t.rxq, RxEvent(t, ev).value))
      && (TxEvent(t, ev).Some? ==> t'.txq == Next(t.txq, TxEvent(t, ev).value))
      && (TxEvent(t, ev) == Some(UsedLook) ==> t.ready)
  {}

  lemma QuietEvents(t: Chan, ev: Ev)
    requires TEnabled(t, ev) && QuietEv(ev)
    ensures RxEvent(t, ev).Some? ==>
      var e := RxEvent(t, ev).value; !e.AddWrite? && !e.Reclaim? && !e.Take? && !e.RetWrite?
    ensures TxEvent(t, ev).Some? ==>
      var e := TxEvent(t, ev).value; !e.AddWrite? && !e.Reclaim? && !e.Take? && !e.RetWrite?
  {}

  lemma QuietStep(t: Chan, ev: Ev)
    requires Sound(t) && TEnabled(t, ev) && QuietEv(ev)
    ensures Sound(TNext(t, ev))
  {
    Open(t);
    var t' := TNext(t, ev);
    QuietParts(t, ev);
    QuietEvents(t, ev);
    RoomInRings(t, ev);
    if RxEvent(t, ev).Some? { QuietQueue(t.rxq, RxEvent(t, ev).value); }
    if TxEvent(t, ev).Some? { QuietQueue(t.txq, TxEvent(t, ev).value); }
    SameLogsPlaced(t, t');
    SameLogsFlow(t, t');
    Close(TNext(t, ev));
  }

  ghost predicate OnlyQueues(t: Chan, t': Chan) {
    && t' == t.(rxq := t'.rxq, txq := t'.txq, ready := t'.ready, dry := t'.dry)
    && SameLogs(t.rxq.h, t'.rxq.h) && SameLogs(t.txq.h, t'.txq.h)
    && t'.rxq.n == t.rxq.n && t'.txq.n == t.txq.n
    && (t'.ready ==> t.ready || t.filled == t.rxq.n)
    && (t.ready ==> t'.ready)
    && (t'.txq.dpc.Reclaiming? ==> t.txq.dpc.Reclaiming? || t.ready)
  }

  lemma SameLogsPlaced(t: Chan, t': Chan)
    requires Placed(t) && OnlyQueues(t, t')
    ensures Placed(t')
  {
    SameLogsFacts(t.rxq.h, t'.rxq.h);
    SameLogsFacts(t.txq.h, t'.txq.h);
    forall b | b in t'.spot ensures SpotOk(t', b) { assert SpotOk(t, b); }
    forall b | b in t'.mTx ensures MTxSpot(t', b) { assert MTxSpot(t, b); }
    forall a: nat | Live(t'.rxq.h, a) ensures RxSpot(t', a) { assert RxSpot(t, a); }
    forall a: nat | Live(t'.txq.h, a) ensures TxSpot(t', a) { assert TxSpot(t, a); }
  }

  lemma SameLogsFlow(t: Chan, t': Chan)
    requires Flow(t) && OnlyQueues(t, t')
    ensures Flow(t')
  {
    SameLogsFacts(t.rxq.h, t'.rxq.h);
    SameLogsFacts(t.txq.h, t'.txq.h);
    forall b | b in t'.mTx ensures MTxOk(t', b) { assert MTxOk(t, b); }
    forall head: nat | head in t'.rTx ensures RTxHand(t', head) && RTxOk(t', head) {
      assert RTxHand(t, head) && RTxOk(t, head);
    }
    forall a: nat | SeenR(t') <= a < |t'.sentR| ensures InFlightR(t', a) { assert InFlightR(t, a); }
    forall k: nat | t'.rxq.h.recl <= k < |t'.sentM| ensures InFlightM(t', k) { assert InFlightM(t, k); }
  }
}
