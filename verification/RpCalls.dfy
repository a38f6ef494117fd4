/** Whole calls of the transport as sequences of its steps, each with the state it leaves behind. */
module RpCalls {
  import opened Wrappers
  import opened QueueState
  import opened QueueInvariant
  import opened QueueTheorems
  import opened RpState
  import opened RpInvariant
  import opened RpSteps
  import opened RpTheorems

  /** The events of one side. */
  predicate Own(master: bool, ev: Ev) {
    match ev
    case Signal(_, e) => master == (e.DriverKick? || e.DriverArm? || e.DriverCheck? || e.DriverDisarm?)
    case _ =>
      !master == (|| ev.RTxLook? || ev.RTxTake? || ev.RHeader? || ev.RPayload? || ev.RSend? || ev.RTxBump?
                  || ev.RRxLook? || ev.RRxTake? || ev.RRead? || ev.RReturn? || ev.RRxBump?)
  }

  ghost predicate AllOwn(master: bool, es: seq<Ev>) {
    forall i: nat :: i < |es| ==> Own(master, es[i])
  }

  ghost predicate OwnRun(master: bool, t: Chan, t': Chan, ts: seq<Chan>, es: seq<Ev>) {
    IsTRun(t, ts, es) && AllOwn(master, es) && ts[|es|] == t'
  }

  /** One side alone can take the transport from t to t'. */
  ghost predicate Reaches(master: bool, t: Chan, t': Chan) {
    exists ts, es :: OwnRun(master, t, t', ts, es)
  }

  /** One side has taken the transport from t0 to t, and t is good. */
  ghost predicate Along(master: bool, t0: Chan, t: Chan) {
    Sound(t) && Reaches(master, t0, t)
  }

  lemma Begin(master: bool, t: Chan)
    requires Sound(t)
    ensures Along(master, t, t)
  {
    assert OwnRun(master, t, t, [t], []);
  }

  lemma ReachesMore(master: bool, t0: Chan, t: Chan, ev: Ev, t': Chan)
    requires Reaches(master, t0, t) && TEnabled(t, ev) && Own(master, ev) && t' == TNext(t, ev)
    ensures Reaches(master, t0, t')
  {
    var ts, es :| OwnRun(master, t0, t, ts, es);
    var ts', es' := Extend(t0, ts, es, ev);
    assert OwnRun(master, t0, t', ts', es');
  }

  lemma SoundStep(t: Chan, ev: Ev, t': Chan)
    requires Sound(t) && TEnabled(t, ev) && t' == TNext(t, ev) && (ev.MSend? ==> PoolFits(t))
    ensures Sound(t')
  {
    RingsNeverFull(t, ev);
    TStep(t, ev, t');
  }

  /** One more event of the same side. */
  lemma Go(master: bool, t0: Chan, t: Chan, ev: Ev, t': Chan)
    requires Along(master, t0, t) && TEnabled(t, ev) && Own(master, ev) && t' == TNext(t, ev)
    requires ev.MSend? ==> PoolFits(t)
    ensures Along(master, t0, t')
  {
    ReachesMore(master, t0, t, ev, t');
    SoundStep(t, ev, t');
  }

  // ---- What a good state offers ----

  lemma SoundQueues(t: Chan)
    requires Sound(t)
    ensures QueuesOk(t)
  {
    Open(t);
  }

  /** What the remote holds it may return. */
  lemma HandsHeld(t: Chan)
    requires Sound(t)
    ensures forall head: nat :: head in t.rTx ==> Held(t.rxq.h, head) && head < t.rxq.n
    ensures t.rRx.Got? ==> Held(t.txq.h, t.rRx.key) && t.rRx.key < t.txq.n
  {
    Open(t);
    InBounds(t.rxq);
    InBounds(t.txq);
  }

  /** An unread buffer in a receive loop holds the message that was sent at its place of the order. */
  lemma NextMessage(t: Chan)
    requires Sound(t)
    ensures t.mRx.Got? && !t.mRx.seen ==>
      0 < t.rxq.h.recl <= |t.sentM| && t.mRx.buf in t.mem && ReadMsg(t.mem[t.mRx.buf]) == t.sentM[t.rxq.h.recl - 1]
    ensures t.rRx.Got? && !t.rRx.seen ==>
      0 < t.txq.h.taken <= |t.sentR| && t.rRx.buf in t.mem && ReadMsg(t.mem[t.rRx.buf]) == t.sentR[t.txq.h.taken - 1]
  {
    Open(t);
    assert t.rRx.Got? && !t.rRx.seen ==> InFlightR(t, t.txq.h.taken - 1);
  }

  // ---- The master's calls ----

  function AddCall(q: Sys, buf: nat, len: nat, readable: nat): Sys {
    Next(Next(q, AddWrite([Buf(buf, len)], readable, buf)), AddBump)
  }

  function GetCall(q: Sys): Sys { Next(Next(q, UsedLook), Reclaim) }

  /** The cookie that the next virtqueue_get_buffer returns. */
  function FrontCookie(q: Sys): nat { DoneAt(q.h, q.h.recl).chain.cookie }

  /** Two events of one side in a row. */
  lemma Two(master: bool, t0: Chan, t: Chan, e1: Ev, t1: Chan, e2: Ev, t2: Chan)
    requires Along(master, t0, t) && TEnabled(t, e1) && Own(master, e1) && t1 == TNext(t, e1)
    requires TEnabled(t1, e2) && Own(master, e2) && t2 == TNext(t1, e2)
    requires e1.MSend? ==> PoolFits(t)
    requires !e2.MSend?
    ensures Along(master, t0, t2)
  {
    Go(master, t0, t, e1, t1);
    Go(master, t0, t1, e2, t2);
  }

  lemma PostShape(t: Chan, t1: Chan, t2: Chan)
    requires TEnabled(t, MPost) && t1 == TNext(t, MPost) && t2 == TNext(t1, MRxBump)
    ensures TEnabled(t1, MRxBump)
    ensures var p := PoolPtr(t.pool);
      && RxEvent(t, MPost) == Some(AddWrite([Buf(p, BUFFER_SIZE)], 0, p))
      && t2 == t.(rxq := AddCall(t.rxq, p, BUFFER_SIZE, 0), pool := PoolTake(t.pool), mem := t.mem[p := ZeroCell()],
                  filled := t.filled + 1, spot := t2.spot)
      && t2.rxq.dpc.DIdle? && t2.rxq.n == t.rxq.n
  {}

  /** One iteration of the loop that posts the receive buffers. */
  lemma PostCall(t0: Chan, t: Chan) returns (t': Chan)
    requires Along(true, t0, t) && TEnabled(t, MPost)
    ensures Along(true, t0, t')
    ensures var p := PoolPtr(t.pool);
      && Enabled(t.rxq, AddWrite([Buf(p, BUFFER_SIZE)], 0, p))
      && t' == t.(rxq := AddCall(t.rxq, p, BUFFER_SIZE, 0), pool := PoolTake(t.pool), mem := t.mem[p := ZeroCell()],
                  filled := t.filled + 1, spot := t'.spot)
      && t'.rxq.dpc.DIdle? && t'.rxq.n == t.rxq.n
  {
    var t1 := TNext(t, MPost);
    t' := TNext(t1, MRxBump);
    PostShape(t, t1, t');
    RingsNeverFull(t, MPost);
    Two(true, t0, t, MPost, t1, MRxBump, t');
  }

  /** The master sets DRIVER_OK. */
  lemma ReadyCall(t0: Chan, t: Chan) returns (t': Chan)
    requires Along(true, t0, t) && TEnabled(t, MReady)
    ensures Along(true, t0, t') && t' == t.(ready := true)
  {
    t' := TNext(t, MReady);
    Go(true, t0, t, MReady, t');
  }

  /** Looking at an empty ring changes nothing. */
  lemma LookEmpty(q: Sys)
    requires Inv(q)
    ensures q.dpc.DIdle? && q.h.recl == q.h.ret ==> Next(q, UsedLook) == q
    ensures q.vpc.VIdle? && q.h.taken == q.h.pub ==> Next(q, AvailLook) == q
  {
    IndicesExact(q);
  }

  lemma LookFull(q: Sys)
    requires Inv(q)
    ensures q.h.recl != q.h.ret ==> Next(q, UsedLook) == q.(dpc := Reclaiming)
    ensures q.h.taken != q.h.pub ==> Next(q, AvailLook) == q.(vpc := Taking)
  {
    IndicesExact(q);
  }

  lemma TxReclaimShape(t: Chan, t1: Chan, t2: Chan)
    requires t.ready && t.txq.dpc.DIdle? && Next(t.txq, UsedLook) == t.txq.(dpc := Reclaiming)
    requires t1 == TNext(t, MTxLook) && t2 == TNext(t1, MTxReclaim)
    ensures TEnabled(t, MTxLook) && TEnabled(t1, MTxReclaim)
    ensures var b := UsedCookie(t.txq.ring, t.txq.drv);
      && t2 == t.(txq := GetCall(t.txq), mTx := t.mTx[b := Hand(b, NextUsed(t.txq.ring, t.txq.drv).len, Blank)],
                  spot := t2.spot, dry := t2.dry)
      && t2.txq.dpc.DIdle? && t2.txq.n == t.txq.n
  {}

  /** The master's send path takes back a finished send buffer. */
  lemma TxReclaimCall(t0: Chan, t: Chan) returns (t': Chan)
    requires Along(true, t0, t) && t.ready && t.txq.dpc.DIdle? && t.txq.h.recl < t.txq.h.ret
    ensures Along(true, t0, t')
    ensures var b := FrontCookie(t.txq);
      && t' == t.(txq := GetCall(t.txq), mTx := t.mTx[b := Hand(b, BUFFER_SIZE, Blank)], spot := t'.spot, dry := t'.dry)
      && DoneAt(t.txq.h, t.txq.h.recl).len == BUFFER_SIZE
      && t'.txq.dpc.DIdle? && t'.txq.n == t.txq.n
  {
    SoundQueues(t);
    var t1 := TNext(t, MTxLook);
    t' := TNext(t1, MTxReclaim);
    LookFull(t.txq);
    TxReclaimShape(t, t1, t');
    FrontMeans(t.txq, 1);
    Two(true, t0, t, MTxLook, t1, MTxReclaim, t');
  }

  /** The oldest finished chain carries the full length and its cookie is what the driver reads. */
  lemma FrontMeans(q: Sys, readable: nat)
    requires Inv(q) && Singles(q.h, readable) && q.h.recl < q.h.ret
    ensures UsedCookie(q.ring, q.drv) == FrontCookie(q)
    ensures NextUsed(q.ring, q.drv).len == DoneAt(q.h, q.h.recl).len == BUFFER_SIZE
  {
    DriverReadsFront(q);
    Window(q);
    assert Abs(q).done[0] == DoneAt(q.h, q.h.recl);
  }

  lemma TxPoolShape(t: Chan, junk: Cell, t1: Chan, t2: Chan)
    requires t.ready && t.txq.dpc.DIdle? && Next(t.txq, UsedLook) == t.txq && BUFFER_SIZE <= t.pool.avail
    requires t.txq.drv.usedCons == t.txq.ring.usedIdx
    requires |junk.data| == PAYLOAD_MAX
    requires t1 == TNext(t, MTxLook) && t2 == TNext(t1, MTxPool(junk))
    ensures TEnabled(t, MTxLook) && TEnabled(t1, MTxPool(junk))
    ensures var p := PoolPtr(t.pool);
      t2 == t.(pool := PoolTake(t.pool), mem := t.mem[p := junk], mTx := t.mTx[p := Hand(p, BUFFER_SIZE, Blank)],
               spot := t2.spot, dry := false)
  {}

  /** With no finished send buffer the master takes one from the pool. */
  lemma TxPoolCall(t0: Chan, t: Chan, junk: Cell) returns (t': Chan)
    requires Along(true, t0, t) && t.ready && t.txq.dpc.DIdle? && t.txq.h.recl == t.txq.h.ret
    requires BUFFER_SIZE <= t.pool.avail && |junk.data| == PAYLOAD_MAX
    ensures Along(true, t0, t')
    ensures var p := PoolPtr(t.pool);
      t' == t.(pool := PoolTake(t.pool), mem := t.mem[p := junk], mTx := t.mTx[p := Hand(p, BUFFER_SIZE, Blank)],
               spot := t'.spot, dry := false)
  {
    SoundQueues(t);
    var t1 := TNext(t, MTxLook);
    t' := TNext(t1, MTxPool(junk));
    LookEmpty(t.txq);
    IndicesExact(t.txq);
    TxPoolShape(t, junk, t1, t');
    Two(true, t0, t, MTxLook, t1, MTxPool(junk), t');
  }

  /** With neither the master has only looked. */
  lemma TxNoneCall(t0: Chan, t: Chan) returns (t': Chan)
    requires Along(true, t0, t) && t.ready && t.txq.dpc.DIdle? && t.txq.h.recl == t.txq.h.ret
    ensures Along(true, t0, t') && t' == t.(dry := true)
  {
    SoundQueues(t);
    LookEmpty(t.txq);
    IndicesExact(t.txq);
    t' := TNext(t, MTxLook);
    Go(true, t0, t, MTxLook, t');
  }

  /** The cell of a buffer once header and payload have been written. */
  function WriteMsg(c: Cell, m: Msg): Cell { WritePayload(WriteHeader(c, m), m.data) }

  lemma WriteShape(t: Chan, buf: nat, m: Msg, t1: Chan, t2: Chan)
    requires buf in t.mTx && t.mTx[buf].tx.Blank? && |m.data| <= PAYLOAD_MAX
    requires t1 == TNext(t, MHeader(buf, m)) && t2 == TNext(t1, MPayload(buf))
    ensures TEnabled(t, MHeader(buf, m)) && TEnabled(t1, MPayload(buf))
    ensures t2 == t.(mem := t.mem[buf := WriteMsg(CellAt(t, buf), m)],
                     mTx := t.mTx[buf := t.mTx[buf].(tx := Filled(m))])
  {
    assert t1.mTx[buf := t1.mTx[buf].(tx := Filled(m))] == t.mTx[buf := t.mTx[buf].(tx := Filled(m))];
    assert t1.mem[buf := WriteMsg(CellAt(t, buf), m)] == t.mem[buf := WriteMsg(CellAt(t, buf), m)];
  }

  /** The master fills the buffer it holds. */
  lemma WriteCall(t0: Chan, t: Chan, buf: nat, m: Msg) returns (t': Chan)
    requires Along(true, t0, t) && buf in t.mTx && t.mTx[buf].tx.Blank? && |m.data| <= PAYLOAD_MAX
    ensures Along(true, t0, t')
    ensures t' == t.(mem := t.mem[buf := WriteMsg(CellAt(t, buf), m)],
                     mTx := t.mTx[buf := t.mTx[buf].(tx := Filled(m))])
  {
    var t1 := TNext(t, MHeader(buf, m));
    t' := TNext(t1, MPayload(buf));
    WriteShape(t, buf, m, t1, t');
    Two(true, t0, t, MHeader(buf, m), t1, MPayload(buf), t');
  }

  lemma EnqueueShape(t: Chan, buf: nat, m: Msg, t1: Chan, t2: Chan)
    requires buf in t.mTx && t.mTx[buf] == Hand(buf, BUFFER_SIZE, Filled(m)) && t.txq.dpc.DIdle?
    requires t1 == TNext(t, MSend(buf)) && t2 == TNext(t1, MTxBump)
    ensures TEnabled(t, MSend(buf)) && TEnabled(t1, MTxBump)
    ensures TxEvent(t, MSend(buf)) == Some(AddWrite([Buf(buf, BUFFER_SIZE)], 1, buf))
    ensures t2 == t.(txq := AddCall(t.txq, buf, BUFFER_SIZE, 1), mTx := t.mTx - {buf}, sentR := t.sentR + [m],
                     spot := t2.spot, dry := false)
    ensures t2.txq.dpc.DIdle? && t2.txq.n == t.txq.n
  {}

  /** The master enqueues the filled buffer; the send ring has room for it. */
  lemma EnqueueCall(t0: Chan, t: Chan, buf: nat, m: Msg) returns (t': Chan)
    requires Along(true, t0, t) && PoolFits(t) && t.txq.dpc.DIdle?
    requires buf in t.mTx && t.mTx[buf] == Hand(buf, BUFFER_SIZE, Filled(m))
    ensures Along(true, t0, t')
    ensures Enabled(t.txq, AddWrite([Buf(buf, BUFFER_SIZE)], 1, buf))
    ensures t' == t.(txq := AddCall(t.txq, buf, BUFFER_SIZE, 1), mTx := t.mTx - {buf}, sentR := t.sentR + [m],
                     spot := t'.spot, dry := false)
    ensures t'.txq.dpc.DIdle? && t'.txq.n == t.txq.n
  {
    var t1 := TNext(t, MSend(buf));
    t' := TNext(t1, MTxBump);
    EnqueueShape(t, buf, m, t1, t');
    RingsNeverFull(t, MSend(buf));
    Two(true, t0, t, MSend(buf), t1, MTxBump, t');
  }

  lemma SignalCall(master: bool, t0: Chan, t: Chan, onRx: bool, e: Event) returns (t': Chan)
    requires Along(master, t0, t) && TEnabled(t, Signal(onRx, e)) && Own(master, Signal(onRx, e))
    ensures Along(master, t0, t')
    ensures t' == if onRx then t.(rxq := Next(t.rxq, e)) else t.(txq := Next(t.txq, e))
  {
    t' := TNext(t, Signal(onRx, e));
    Go(master, t0, t, Signal(onRx, e), t');
  }

  lemma RxTakeShape(t: Chan, t1: Chan, t2: Chan)
    requires t.ready && t.mRx.NoRx? && t.rxq.dpc.DIdle? && Next(t.rxq, UsedLook) == t.rxq.(dpc := Reclaiming)
    requires t1 == TNext(t, MRxLook) && t2 == TNext(t1, MRxReclaim)
    ensures TEnabled(t, MRxLook) && TEnabled(t1, MRxReclaim)
    ensures t2 == t.(rxq := GetCall(t.rxq), spot := t2.spot,
                     mRx := Got(UsedCookie(t.rxq.ring, t.rxq.drv), 0, NextUsed(t.rxq.ring, t.rxq.drv).len, false))
    ensures t2.rxq.dpc.DIdle? && t2.rxq.h.recl == t.rxq.h.recl + 1 && t2.rxq.h.ret == t.rxq.h.ret
  {}

  /** The master's receive loop takes the oldest returned buffer. */
  lemma RxTakeCall(t0: Chan, t: Chan) returns (t': Chan)
    requires Along(true, t0, t) && t.ready && t.mRx.NoRx? && t.rxq.dpc.DIdle? && t.rxq.h.recl < t.rxq.h.ret
    ensures Along(true, t0, t')
    ensures t' == t.(rxq := GetCall(t.rxq), mRx := Got(FrontCookie(t.rxq), 0, BUFFER_SIZE, false), spot := t'.spot)
    ensures DoneAt(t.rxq.h, t.rxq.h.recl).len == BUFFER_SIZE
    ensures t'.rxq.dpc.DIdle? && t'.rxq.h.recl == t.rxq.h.recl + 1 && t'.rxq.h.ret == t.rxq.h.ret
  {
    SoundQueues(t);
    var t1 := TNext(t, MRxLook);
    t' := TNext(t1, MRxReclaim);
    LookFull(t.rxq);
    RxTakeShape(t, t1, t');
    FrontMeans(t.rxq, 0);
    Two(true, t0, t, MRxLook, t1, MRxReclaim, t');
  }

  /** It hands the message to a callback: the one sent at that place of the order. */
  lemma ReadCall(t0: Chan, t: Chan) returns (t': Chan)
    requires Along(true, t0, t) && t.mRx.Got? && !t.mRx.seen
    ensures Along(true, t0, t')
    ensures 0 < t.rxq.h.recl <= |t.sentM| && t.mRx.buf in t.mem &&
      ReadMsg(CellAt(t, t.mRx.buf)) == t.sentM[t.rxq.h.recl - 1]
    ensures t' == t.(gotM := t'.gotM, mRx := t.mRx.(seen := true))
  {
    NextMessage(t);
    t' := TNext(t, MRead);
    Go(true, t0, t, MRead, t');
  }

  lemma ReturnShape(t: Chan, t1: Chan, t2: Chan)
    requires t.mRx.Got? && t.mRx.seen && t.rxq.dpc.DIdle? && t1 == TNext(t, MReturn) && t2 == TNext(t1, MRxBump)
    ensures TEnabled(t, MReturn) && TEnabled(t1, MRxBump)
    ensures RxEvent(t, MReturn) == Some(AddWrite([Buf(t.mRx.buf, t.mRx.len)], 0, t.mRx.buf))
    ensures t2 == t.(rxq := AddCall(t.rxq, t.mRx.buf, t.mRx.len, 0), mRx := NoRx, spot := t2.spot)
    ensures t2.rxq.dpc.DIdle? && t2.rxq.h.recl == t.rxq.h.recl && t2.rxq.h.ret == t.rxq.h.ret
  {}

  /** It returns the buffer; the receive ring has room for it. */
  lemma ReturnCall(t0: Chan, t: Chan) returns (t': Chan)
    requires Along(true, t0, t) && t.mRx.Got? && t.mRx.seen && t.rxq.dpc.DIdle?
    ensures Along(true, t0, t')
    ensures Enabled(t.rxq, AddWrite([Buf(t.mRx.buf, t.mRx.len)], 0, t.mRx.buf))
    ensures t' == t.(rxq := AddCall(t.rxq, t.mRx.buf, t.mRx.len, 0), mRx := NoRx, spot := t'.spot)
    ensures t'.rxq.dpc.DIdle? && t'.rxq.h.recl == t.rxq.h.recl && t'.rxq.h.ret == t.rxq.h.ret
  {
    var t1 := TNext(t, MReturn);
    t' := TNext(t1, MRxBump);
    ReturnShape(t, t1, t');
    RingsNeverFull(t, MReturn);
    Two(true, t0, t, MReturn, t1, MRxBump, t');
  }

  // ---- The remote's calls ----

  function TakeCall(q: Sys): Sys { Next(Next(q, AvailLook), Take) }

  function GiveCall(q: Sys, head: nat, len: nat): Sys { Next(Next(q, RetWrite(head, len)), RetBump) }

  /** The oldest offered chain has one descriptor of full length, whose address is its cookie. */
  lemma OfferMeans(q: Sys, readable: nat)
    requires Inv(q) && Singles(q.h, readable) && q.h.taken < q.h.pub
    ensures q.h.taken < |q.h.added| && |q.h.added[q.h.taken].idxs| == 1
    ensures var c, head := q.h.added[q.h.taken], NextAvail(q.ring, q.dev);
      && head == c.idxs[0] && c.bufs == [Buf(c.cookie, BUFFER_SIZE)]
      && At(q.ring.desc, head, NO_DESC).addr == c.cookie && At(q.ring.desc, head, NO_DESC).len == BUFFER_SIZE
  {
    DeviceReadsFront(q);
    Window(q);
    assert Abs(q).offered[0] == q.h.added[q.h.taken];
    assert Single(q.h.added[q.h.taken], readable);
  }

  lemma RTakeShape(t: Chan, t1: Chan, t2: Chan)
    requires t.ready && t.rxq.vpc.VIdle? && Next(t.rxq, AvailLook) == t.rxq.(vpc := Taking)
    requires t1 == TNext(t, RTxLook) && t2 == TNext(t1, RTxTake)
    ensures TEnabled(t, RTxLook) && TEnabled(t1, RTxTake)
    ensures var head := NextAvail(t.rxq.ring, t.rxq.dev);
      var d := At(t.rxq.ring.desc, head, NO_DESC);
      t2 == t.(rxq := TakeCall(t.rxq), rTx := t.rTx[head := Hand(d.addr, d.len, Blank)])
    ensures t2.rxq.vpc.VIdle? && t2.rxq.n == t.rxq.n
  {}

  /** The remote's send path takes the oldest offered buffer. */
  lemma RTakeCall(t0: Chan, t: Chan) returns (t': Chan)
    requires Along(false, t0, t) && t.ready && t.rxq.vpc.VIdle? && t.rxq.h.taken < t.rxq.h.pub
    ensures Along(false, t0, t')
    ensures t.rxq.h.taken < |t.rxq.h.added| && |t.rxq.h.added[t.rxq.h.taken].idxs| == 1
    ensures var c := t.rxq.h.added[t.rxq.h.taken];
      && c.bufs == [Buf(c.cookie, BUFFER_SIZE)]
      && t' == t.(rxq := TakeCall(t.rxq), rTx := t.rTx[c.idxs[0] := Hand(c.cookie, BUFFER_SIZE, Blank)])
    ensures t'.rxq.vpc.VIdle? && t'.rxq.n == t.rxq.n
  {
    SoundQueues(t);
    var t1 := TNext(t, RTxLook);
    t' := TNext(t1, RTxTake);
    LookFull(t.rxq);
    RTakeShape(t, t1, t');
    OfferMeans(t.rxq, 0);
    Two(false, t0, t, RTxLook, t1, RTxTake, t');
  }

  lemma RWriteShape(t: Chan, head: nat, m: Msg, t1: Chan, t2: Chan)
    requires head in t.rTx && t.rTx[head].tx.Blank? && |m.data| <= PAYLOAD_MAX
    requires t1 == TNext(t, RHeader(head, m)) && t2 == TNext(t1, RPayload(head))
    ensures TEnabled(t, RHeader(head, m)) && TEnabled(t1, RPayload(head))
    ensures var b := t.rTx[head].buf;
      t2 == t.(mem := t.mem[b := WriteMsg(CellAt(t, b), m)], rTx := t.rTx[head := t.rTx[head].(tx := Filled(m))])
  {
    var b := t.rTx[head].buf;
    assert t1.rTx[head := t1.rTx[head].(tx := Filled(m))] == t.rTx[head := t.rTx[head].(tx := Filled(m))];
    assert t1.mem[b := WriteMsg(CellAt(t, b), m)] == t.mem[b := WriteMsg(CellAt(t, b), m)];
  }

  /** The remote fills the buffer it holds. */
  lemma RWriteCall(t0: Chan, t: Chan, head: nat, m: Msg) returns (t': Chan)
    requires Along(false, t0, t) && head in t.rTx && t.rTx[head].tx.Blank? && |m.data| <= PAYLOAD_MAX
    ensures Along(false, t0, t')
    ensures var b := t.rTx[head].buf;
      t' == t.(mem := t.mem[b := WriteMsg(CellAt(t, b), m)], rTx := t.rTx[head := t.rTx[head].(tx := Filled(m))])
  {
    var t1 := TNext(t, RHeader(head, m));
    t' := TNext(t1, RPayload(head));
    RWriteShape(t, head, m, t1, t');
    Two(false, t0, t, RHeader(head, m), t1, RPayload(head), t');
  }

  lemma REnqueueShape(t: Chan, head: nat, buf: nat, m: Msg, t1: Chan, t2: Chan)
    requires head in t.rTx && t.rTx[head] == Hand(buf, BUFFER_SIZE, Filled(m)) && t.rxq.vpc.VIdle?
    requires t1 == TNext(t, RSend(head)) && t2 == TNext(t1, RTxBump)
    ensures TEnabled(t, RSend(head)) && TEnabled(t1, RTxBump)
    ensures t2 == t.(rxq := GiveCall(t.rxq, head, BUFFER_SIZE), rTx := t.rTx - {head}, sentM := t.sentM + [m])
    ensures t2.rxq.vpc.VIdle? && t2.rxq.n == t.rxq.n
  {}

  /** The remote returns the filled buffer to the master. */
  lemma REnqueueCall(t0: Chan, t: Chan, head: nat, buf: nat, m: Msg) returns (t': Chan)
    requires Along(false, t0, t) && t.rxq.vpc.VIdle? && head in t.rTx &&
      t.rTx[head] == Hand(buf, BUFFER_SIZE, Filled(m))
    ensures Along(false, t0, t')
    ensures Held(t.rxq.h, head) && head < t.rxq.n
    ensures t' == t.(rxq := GiveCall(t.rxq, head, BUFFER_SIZE), rTx := t.rTx - {head}, sentM := t.sentM + [m])
    ensures t'.rxq.vpc.VIdle? && t'.rxq.n == t.rxq.n
  {
    HandsHeld(t);
    var t1 := TNext(t, RSend(head));
    t' := TNext(t1, RTxBump);
    REnqueueShape(t, head, buf, m, t1, t');
    Two(false, t0, t, RSend(head), t1, RTxBump, t');
  }

  lemma RRxTakeShape(t: Chan, t1: Chan, t2: Chan)
    requires t.ready && t.rRx.NoRx? && t.txq.vpc.VIdle? && Next(t.txq, AvailLook) == t.txq.(vpc := Taking)
    requires t1 == TNext(t, RRxLook) && t2 == TNext(t1, RRxTake)
    ensures TEnabled(t, RRxLook) && TEnabled(t1, RRxTake)
    ensures var head := NextAvail(t.txq.ring, t.txq.dev);
      var d := At(t.txq.ring.desc, head, NO_DESC);
      t2 == t.(txq := TakeCall(t.txq), rRx := Got(d.addr, head, d.len, false))
    ensures t2.txq.vpc.VIdle? && t2.txq.h.taken == t.txq.h.taken + 1 && t2.txq.h.pub == t.txq.h.pub
  {}

  /** The remote's receive loop takes the oldest offered buffer. */
  lemma RRxTakeCall(t0: Chan, t: Chan) returns (t': Chan)
    requires Along(false, t0, t) && t.ready && t.rRx.NoRx? && t.txq.vpc.VIdle? && t.txq.h.taken < t.txq.h.pub
    ensures Along(false, t0, t')
    ensures t.txq.h.taken < |t.txq.h.added| && |t.txq.h.added[t.txq.h.taken].idxs| == 1
    ensures var c := t.txq.h.added[t.txq.h.taken];
      && c.bufs == [Buf(c.cookie, BUFFER_SIZE)]
      && t' == t.(txq := TakeCall(t.txq), rRx := Got(c.cookie, c.idxs[0], BUFFER_SIZE, false))
    ensures t'.txq.vpc.VIdle? && t'.txq.h.taken == t.txq.h.taken + 1 && t'.txq.h.pub == t.txq.h.pub
  {
    SoundQueues(t);
    var t1 := TNext(t, RRxLook);
    t' := TNext(t1, RRxTake);
    LookFull(t.txq);
    RRxTakeShape(t, t1, t');
    OfferMeans(t.txq, 1);
    Two(false, t0, t, RRxLook, t1, RRxTake, t');
  }

  /** It hands the message to a callback: the one sent at that place of the order. */
  lemma RReadCall(t0: Chan, t: Chan) returns (t': Chan)
    requires Along(false, t0, t) && t.rRx.Got? && !t.rRx.seen
    ensures Along(false, t0, t')
    ensures 0 < t.txq.h.taken <= |t.sentR| && t.rRx.buf in t.mem &&
      ReadMsg(CellAt(t, t.rRx.buf)) == t.sentR[t.txq.h.taken - 1]
    ensures t' == t.(gotR := t'.gotR, rRx := t.rRx.(seen := true))
  {
    NextMessage(t);
    t' := TNext(t, RRead);
    Go(false, t0, t, RRead, t');
  }

  lemma RReturnShape(t: Chan, t1: Chan, t2: Chan)
    requires t.rRx.Got? && t.rRx.seen && t.txq.vpc.VIdle? && t1 == TNext(t, RReturn) && t2 == TNext(t1, RRxBump)
    ensures TEnabled(t, RReturn) && TEnabled(t1, RRxBump)
    ensures t2 == t.(txq := GiveCall(t.txq, t.rRx.key, t.rRx.len), rRx := NoRx)
    ensures t2.txq.vpc.VIdle? && t2.txq.h.taken == t.txq.h.taken && t2.txq.h.pub == t.txq.h.pub
  {}

  /** It returns the buffer. */
  lemma RReturnCall(t0: Chan, t: Chan) returns (t': Chan)
    requires Along(false, t0, t) && t.rRx.Got? && t.rRx.seen && t.txq.vpc.VIdle?
    ensures Along(false, t0, t')
    ensures Held(t.txq.h, t.rRx.key) && t.rRx.key < t.txq.n
    ensures t' == t.(txq := GiveCall(t.txq, t.rRx.key, t.rRx.len), rRx := NoRx)
    ensures t'.txq.vpc.VIdle? && t'.txq.h.taken == t.txq.h.taken && t'.txq.h.pub == t.txq.h.pub
  {
    HandsHeld(t);
    var t1 := TNext(t, RReturn);
    t' := TNext(t1, RRxBump);
    RReturnShape(t, t1, t');
    Two(false, t0, t, RReturn, t1, RRxBump, t');
  }
}
