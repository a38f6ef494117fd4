/** When the kicks of the transport notify. Each side disables the callbacks of its own send queue when it
    starts, and neither side ever enables any. So a receiver's wish to hear of sends stays that of zeroed
    ring memory, and a sender's wish to hear of returned buffers stays disabled. */
module RpWakeups {
  import opened Wrappers
  import opened Bits
  import opened QueueState
  import opened QueueInvariant
  import opened QueueNotify
  import opened RpState
  import opened RpInvariant
  import opened RpTheorems
  import opened RpCalls

  /** The signals that the transport gives: kicks, and the start of either side. */
  predicate Given(ev: Ev) {
    ev.Signal? ==> ev.e.DriverKick? || ev.e.DeviceKick? || ev == MASTER_STARTS || ev == REMOTE_STARTS
  }

  /** virtqueue_disable_cb on the side's send queue. */
  const MASTER_STARTS: Ev := Signal(false, DriverDisarm)
  const REMOTE_STARTS: Ev := Signal(true, DeviceDisarm)

  ghost predicate AllGiven(es: seq<Ev>) { forall i: nat :: i < |es| ==> Given(es[i]) }

  /** Neither receiver has touched its wish to be notified. */
  ghost predicate ReceiversUntouched(t: Chan, ev0: bool, ev1: bool) {
    && Untouched(t.txq, ToDevice) && t.txq.eventIdx == ev1
    && Untouched(t.rxq, ToDriver) && t.rxq.eventIdx == ev0
  }

  lemma QueueStep(q: Sys, m: Maybe<Event>, q': Sys, dir: Dir)
    requires Inv(q) && Untouched(q, dir) && q' == (match m case Some(e) => Next(q, e) case None => q)
    requires m.Some? ==> Enabled(q, m.value) && !IsArm(m.value, dir) && !IsDisarm(m.value, dir)
    ensures Untouched(q', dir) && q'.eventIdx == q.eventIdx
  {
    if m.Some? { UntouchedStep(q, m.value, dir); }
  }

  lemma GivenEvents(t: Chan, ev: Ev)
    requires Given(ev)
    ensures TxEvent(t, ev).Some? ==>
      !IsArm(TxEvent(t, ev).value, ToDevice) && !IsDisarm(TxEvent(t, ev).value, ToDevice)
    ensures RxEvent(t, ev).Some? ==>
      !IsArm(RxEvent(t, ev).value, ToDriver) && !IsDisarm(RxEvent(t, ev).value, ToDriver)
  {}

  lemma QueuesOf(t: Chan, ev: Ev, t': Chan)
    requires t' == TNext(t, ev)
    ensures t'.rxq == match RxEvent(t, ev) case Some(e) => Next(t.rxq, e) case None => t.rxq
    ensures t'.txq == match TxEvent(t, ev) case Some(e) => Next(t.txq, e) case None => t.txq
  {}

  lemma UntouchedMoves(t: Chan, ev: Ev, t': Chan, ev0: bool, ev1: bool)
    requires Sound(t) && PoolFits(t) && TEnabled(t, ev) && Given(ev) && t' == TNext(t, ev)
    requires ReceiversUntouched(t, ev0, ev1)
    ensures ReceiversUntouched(t', ev0, ev1)
  {
    GoodQueues(t);
    RingsNeverFull(t, ev);
    GivenEvents(t, ev);
    QueuesOf(t, ev, t');
    QueueStep(t.txq, TxEvent(t, ev), t'.txq, ToDevice);
    QueueStep(t.rxq, RxEvent(t, ev), t'.rxq, ToDriver);
  }

  lemma GoodQueues(t: Chan)
    requires Sound(t)
    ensures Inv(t.rxq) && Inv(t.txq)
  {
    Open(t);
  }

  lemma StartUntouched(s: Setup)
    ensures ReceiversUntouched(Start(s), s.ev0, s.ev1)
  {}

  lemma MoveInRun(s: Setup, ts: seq<Chan>, es: seq<Ev>, i: nat)
    requires SetupOk(s) && NoLarger(s.size, s.n0, s.n1) && IsTRun(Start(s), ts, es) && AllGiven(es) && i < |es|
    requires ReceiversUntouched(ts[i], s.ev0, s.ev1)
    ensures ReceiversUntouched(ts[i + 1], s.ev0, s.ev1)
  {
    RunStateInv(s, ts, es, i);
    assert TStepAt(ts, es, i) && Given(es[i]);
    UntouchedMoves(ts[i], es[i], ts[i + 1], s.ev0, s.ev1);
  }

  lemma {:induction false} RunUntouched(s: Setup, ts: seq<Chan>, es: seq<Ev>, i: nat)
    requires SetupOk(s) && NoLarger(s.size, s.n0, s.n1) && IsTRun(Start(s), ts, es) && AllGiven(es) && i < |ts|
    ensures ReceiversUntouched(ts[i], s.ev0, s.ev1)
  {
    if i == 0 {
      StartUntouched(s);
    } else {
      RunUntouched(s, ts, es, i - 1);
      MoveInRun(s, ts, es, i - 1);
    }
  }

  /** In every run, with either side started or not, the master's kick for sends notifies the remote, and
      the remote's kick for sends the master, always in flag mode; in event-index mode exactly if the
      number of messages has passed a multiple of 65536 since the previous kick. With one message for
      each kick that is the first message and every 65536th after it. */
  lemma SendNotifies(s: Setup, ts: seq<Chan>, es: seq<Ev>, i: nat)
    requires SetupOk(s) && NoLarger(s.size, s.n0, s.n1) && IsTRun(Start(s), ts, es) && AllGiven(es) && i < |ts|
    ensures var q := ts[i].txq; var lo, hi := Kicked(q, ToDevice), Produced(q, ToDevice);
      && (hi - lo < WORD16 ==> (MustNotify(q, ToDevice) <==> !s.ev1 || PassesTurn(lo, hi)))
      && (hi == lo + 1 ==> (MustNotify(q, ToDevice) <==> !s.ev1 || lo % WORD16 == 0))
    ensures var q := ts[i].rxq; var lo, hi := Kicked(q, ToDriver), Produced(q, ToDriver);
      && (hi - lo < WORD16 ==> (MustNotify(q, ToDriver) <==> !s.ev0 || PassesTurn(lo, hi)))
      && (hi == lo + 1 ==> (MustNotify(q, ToDriver) <==> !s.ev0 || lo % WORD16 == 0))
  {
    RunUntouched(s, ts, es, i);
    RunStateInv(s, ts, es, i);
    GoodQueues(ts[i]);
    KickOf(ts[i].txq, ToDevice);
    KickOf(ts[i].rxq, ToDriver);
  }

  lemma KickOf(q: Sys, dir: Dir)
    requires Inv(q) && Untouched(q, dir)
    ensures var lo, hi := Kicked(q, dir), Produced(q, dir);
      && (hi - lo < WORD16 ==> (MustNotify(q, dir) <==> !q.eventIdx || PassesTurn(lo, hi)))
      && (hi == lo + 1 ==> (MustNotify(q, dir) <==> !q.eventIdx || lo % WORD16 == 0))
  {
    var lo, hi := Kicked(q, dir), Produced(q, dir);
    if hi - lo < WORD16 {
      UntouchedKick(q, dir);
      OneMessage(lo);
    }
  }

  lemma OneMessage(lo: nat)
    ensures PassesTurn(lo, lo + 1) <==> lo % WORD16 == 0
  {
    ZeroCrossed(lo, lo + 1);
    if lo % WORD16 == 0 { assert U16(lo) == 0 && lo <= lo < lo + 1; }
  }

  // ---- Kicks for returned buffers ----

  /** The queue on which the side that starts sends. */
  function Started(t: Chan, master: bool): Sys { if master then t.txq else t.rxq }

  function StartEvent(master: bool): Ev { if master then MASTER_STARTS else REMOTE_STARTS }

  /** Its direction of notification: buffers come back to the driver or to the device. */
  function Homeward(master: bool): Dir { if master then ToDriver else ToDevice }

  function MoveOf(t: Chan, ev: Ev, master: bool): Maybe<Event> { if master then TxEvent(t, ev) else RxEvent(t, ev) }

  lemma NotifyMove(t: Chan, ev: Ev, t': Chan, onTx: bool, dir: Dir)
    requires Sound(t) && PoolFits(t) && TEnabled(t, ev) && t' == TNext(t, ev)
    requires NotifyInv(Started(t, onTx), dir)
    ensures NotifyInv(Started(t', onTx), dir) && Started(t', onTx).eventIdx == Started(t, onTx).eventIdx
  {
    GoodQueues(t);
    RingsNeverFull(t, ev);
    QueuesOf(t, ev, t');
    var m := MoveOf(t, ev, onTx);
    if m.Some? {
      StepNotifyInv(Started(t, onTx), m.value, dir);
      StepView(Started(t, onTx), m.value, dir);
    }
  }

  /** In every state of every run, on both queues and in both directions, the queued count is the number of
      entries published since the last kick, modulo 65536: what the exactness of a kick rests on. */
  lemma {:induction false} RunNotify(s: Setup, ts: seq<Chan>, es: seq<Ev>, i: nat, onTx: bool, dir: Dir)
    requires SetupOk(s) && NoLarger(s.size, s.n0, s.n1) && IsTRun(Start(s), ts, es) && i < |ts|
    ensures NotifyInv(Started(ts[i], onTx), dir)
    ensures Started(ts[i], onTx).eventIdx == if onTx then s.ev1 else s.ev0
  {
    if i > 0 {
      RunNotify(s, ts, es, i - 1, onTx, dir);
      RunStateInv(s, ts, es, i - 1);
      assert TStepAt(ts, es, i - 1);
      NotifyMove(ts[i - 1], es[i - 1], ts[i], onTx, dir);
    }
  }

  lemma StartDisables(t: Chan, t': Chan, master: bool)
    requires Sound(t) && TEnabled(t, StartEvent(master)) && t' == TNext(t, StartEvent(master))
    requires NotifyInv(Started(t, master), Homeward(master))
    ensures DisabledAt(Started(t', master), Homeward(master), Consumed(Started(t, master), Homeward(master)))
  {
    GoodQueues(t);
    QueuesOf(t, StartEvent(master), t');
    DisarmDisables(Started(t, master), StartEvent(master).e, Homeward(master));
  }

  lemma DisabledMoves(t: Chan, ev: Ev, t': Chan, master: bool, c: nat)
    requires Sound(t) && PoolFits(t) && TEnabled(t, ev) && Given(ev) && ev != StartEvent(master) && t' == TNext(t, ev)
    requires DisabledAt(Started(t, master), Homeward(master), c)
    ensures DisabledAt(Started(t', master), Homeward(master), c)
  {
    GoodQueues(t);
    RingsNeverFull(t, ev);
    QueuesOf(t, ev, t');
    var m := MoveOf(t, ev, master);
    if m.Some? { DisabledStep(Started(t, master), m.value, Homeward(master), c); }
  }

  ghost predicate Off(t: Chan, master: bool, c: nat) { DisabledAt(Started(t, master), Homeward(master), c) }

  /** How many buffers have come home on the queue. */
  function Home(t: Chan, master: bool): nat { Consumed(Started(t, master), Homeward(master)) }

  lemma OffAtStart(s: Setup, ts: seq<Chan>, es: seq<Ev>, i: nat, master: bool)
    requires SetupOk(s) && NoLarger(s.size, s.n0, s.n1) && IsTRun(Start(s), ts, es) && i < |es|
    requires es[i] == StartEvent(master)
    ensures Off(ts[i + 1], master, Home(ts[i], master))
  {
    RunStateInv(s, ts, es, i);
    RunNotify(s, ts, es, i, master, Homeward(master));
    assert TStepAt(ts, es, i);
    StartDisables(ts[i], ts[i + 1], master);
  }

  lemma OffInRun(s: Setup, ts: seq<Chan>, es: seq<Ev>, k: nat, master: bool, c: nat)
    requires SetupOk(s) && NoLarger(s.size, s.n0, s.n1) && IsTRun(Start(s), ts, es) && AllGiven(es) && k < |es|
    requires es[k] != StartEvent(master) && Off(ts[k], master, c)
    ensures Off(ts[k + 1], master, c)
  {
    RunStateInv(s, ts, es, k);
    assert TStepAt(ts, es, k) && Given(es[k]);
    DisabledMoves(ts[k], es[k], ts[k + 1], master, c);
  }

  lemma {:induction false} StaysDisabled(s: Setup, ts: seq<Chan>, es: seq<Ev>, i: nat, k: nat, master: bool)
    requires SetupOk(s) && NoLarger(s.size, s.n0, s.n1) && IsTRun(Start(s), ts, es) && AllGiven(es) && i < k < |ts|
    requires es[i] == StartEvent(master) && forall j: nat :: i < j < k ==> es[j] != StartEvent(master)
    ensures Off(ts[k], master, Home(ts[i], master))
    decreases k
  {
    if k == i + 1 {
      OffAtStart(s, ts, es, i, master);
    } else {
      StaysDisabled(s, ts, es, i, k - 1, master);
      OffInRun(s, ts, es, k - 1, master, Home(ts[i], master));
    }
  }

  /** When a kick for returned buffers notifies a side that had c of them when it started. */
  ghost predicate NotifiesHome(q: Sys, dir: Dir, c: nat) {
    var n, lo, hi := q.n, Kicked(q, dir), Produced(q, dir);
    && (!q.eventIdx ==> !MustNotify(q, dir))
    && (q.eventIdx && hi - lo < WORD16 ==>
          && (MustNotify(q, dir) <==> Crossed(lo, hi, U16(c - n - 1)))
          && (c - n <= lo <= c + 65535 - n ==> (MustNotify(q, dir) <==> hi > c + 65535 - n)))
  }

  lemma HomeKick(t: Chan, master: bool, c: nat)
    requires Sound(t) && Off(t, master, c)
    ensures NotifiesHome(Started(t, master), Homeward(master), c)
  {
    GoodQueues(t);
    DisabledKick(Started(t, master), Homeward(master), c);
  }

  /** In every run, once a side has started, having collected c buffers on its send queue (none, at a first
      start): the peer's kick for returned buffers never notifies in flag mode; in event-index mode it
      notifies exactly if the number of returned buffers has passed a value equal to c - n - 1 modulo
      65536 since the previous kick. */
  lemma ReturnNotifies(s: Setup, ts: seq<Chan>, es: seq<Ev>, i: nat, k: nat, master: bool)
    requires SetupOk(s) && NoLarger(s.size, s.n0, s.n1) && IsTRun(Start(s), ts, es) && AllGiven(es) && i < k < |ts|
    requires es[i] == StartEvent(master) && forall j: nat :: i < j < k ==> es[j] != StartEvent(master)
    ensures NotifiesHome(Started(ts[k], master), Homeward(master), Home(ts[i], master))
    ensures Started(ts[k], master).eventIdx == if master then s.ev1 else s.ev0
  {
    StaysDisabled(s, ts, es, i, k, master);
    RunNotify(s, ts, es, k, master, Homeward(master));
    RunStateInv(s, ts, es, k);
    HomeKick(ts[k], master, Home(ts[i], master));
  }

  // ---- A send that the remote does not hear of ----

  /** Where the queue of the master's sends stands; the remote's event index is that of zeroed memory. */
  ghost predicate SendsAt(q: Sys, sent: nat, announced: nat, taken: nat, recl: nat) {
    && q.eventIdx && q.ring.availEvent == 0 && q.dpc.DIdle? && q.vpc.VIdle?
    && q.h.pub == sent && q.h.taken == q.h.ret == taken && q.h.recl == recl && q.drv.queued == sent - announced
  }

  lemma AddSends(q: Sys, buf: nat, sent: nat, taken: nat, recl: nat)
    requires SendsAt(q, sent, sent, taken, recl)
    ensures SendsAt(AddCall(q, buf, BUFFER_SIZE, 1), sent + 1, sent, taken, recl)
  {}

  lemma KickSends(q: Sys, sent: nat, announced: nat, taken: nat, recl: nat)
    requires SendsAt(q, sent, announced, taken, recl)
    ensures SendsAt(Next(q, DriverKick), sent, sent, taken, recl)
  {}

  lemma TakeSends(q: Sys, sent: nat, taken: nat, recl: nat, head: nat)
    requires SendsAt(q, sent, sent, taken, recl) && TakeCall(q).vpc.VIdle?
    ensures SendsAt(GiveCall(TakeCall(q), head, BUFFER_SIZE), sent, sent, taken + 1, recl)
  {}

  lemma GetSends(q: Sys, sent: nat, taken: nat, recl: nat)
    requires SendsAt(q, sent, sent, taken, recl) && GetCall(q).dpc.DIdle?
    ensures SendsAt(GetCall(q), sent, sent, taken, recl + 1)
  {}

  /** Both sides started, with one receive buffer posted. */
  lemma BothUp(s: Setup) returns (ready: Chan, up: Chan)
    requires SetupOk(s) && s.n0 == 1 && s.ev1 && 2 * BUFFER_SIZE <= s.size && NoLarger(s.size, s.n0, s.n1)
    ensures Reaches(true, Start(s), ready) && Along(false, ready, up) && PoolFits(up)
    ensures up.ready && up.rRx.NoRx? && BUFFER_SIZE <= up.pool.avail && SendsAt(up.txq, 0, 0, 0, 0)
    ensures up.gotR == up.sentR == []
  {
    var t0 := Start(s);
    StartInv(s);
    Begin(true, t0);
    var t1 := SignalCall(true, t0, t0, false, DriverDisarm);
    var t2 := PostCall(t0, t1);
    ready := ReadyCall(t0, t2);
    Begin(false, ready);
    up := SignalCall(false, ready, ready, true, DeviceDisarm);
  }

  /** The master fills the buffer in hand and enqueues it. */
  lemma Enqueue(t0: Chan, t: Chan, buf: nat, m: Msg, sent: nat, taken: nat, recl: nat) returns (t': Chan)
    requires Along(true, t0, t) && PoolFits(t) && SendsAt(t.txq, sent, sent, taken, recl) && |m.data| <= PAYLOAD_MAX
    requires buf in t.mTx && t.mTx[buf] == Hand(buf, BUFFER_SIZE, Blank)
    ensures Along(true, t0, t') && SendsAt(t'.txq, sent + 1, sent, taken, recl) && t'.sentR == t.sentR + [m]
    ensures t'.ready == t.ready && t'.rRx == t.rRx && t'.gotR == t.gotR && PoolFits(t')
  {
    var t1 := WriteCall(t0, t, buf, m);
    AddSends(t.txq, buf, sent, taken, recl);
    t' := EnqueueCall(t0, t1, buf, m);
  }

  /** The remote receives one message and returns its buffer. */
  lemma ReceiveOne(t: Chan) returns (t': Chan)
    requires Sound(t) && t.ready && t.rRx.NoRx? && PoolFits(t) && SendsAt(t.txq, 1, 1, 0, 0)
    ensures Along(false, t, t') && t'.ready && PoolFits(t') && t'.rRx.NoRx? && SendsAt(t'.txq, 1, 1, 1, 0)
    ensures t'.sentR == t.sentR
  {
    Begin(false, t);
    var t1 := RRxTakeCall(t, t);
    var t2 := RReadCall(t, t1);
    t' := RReturnCall(t, t2);
    TakeSends(t.txq, 1, 0, 0, t2.rRx.key);
  }

  lemma WhoHears(q: Sys)
    requires Inv(q)
    ensures SendsAt(q, 1, 0, 0, 0) ==> MustNotify(q, ToDevice)
    ensures SendsAt(q, 2, 1, 1, 1) ==> !MustNotify(q, ToDevice)
  {}

  /** With event indices and both sides up: the kick of the first message notifies the remote, which
      receives it; the kick of the second, sent to an idle remote, does not. */
  lemma SecondSendIsSilent(s: Setup, m1: Msg, m2: Msg)
    returns (ready: Chan, up: Chan, first: Chan, kicked: Chan, drained: Chan, second: Chan)
    requires SetupOk(s) && s.n0 == 1 && s.ev1 && 2 * BUFFER_SIZE <= s.size && NoLarger(s.size, s.n0, s.n1)
    requires |m1.data| <= PAYLOAD_MAX && |m2.data| <= PAYLOAD_MAX
    ensures Reaches(true, Start(s), ready) && Reaches(false, ready, up) && Reaches(true, up, first)
    ensures first.sentR == [m1] && MustNotify(first.txq, ToDevice)
    ensures TEnabled(first, Signal(false, DriverKick)) && kicked == TNext(first, Signal(false, DriverKick))
    ensures Reaches(false, kicked, drained) && drained.gotR == [m1] && drained.rRx.NoRx?
    ensures Reaches(true, drained, second) && second.sentR == [m1, m2] && second.gotR == [m1]
    ensures TEnabled(second, Signal(false, DriverKick)) && !MustNotify(second.txq, ToDevice)
  {
    ready, up := BothUp(s);
    first, kicked := FirstSend(up, m1);
    drained := ReceiveOne(kicked);
    Drained(drained);
    second := SecondSend(drained, m2);
  }

  lemma FirstSend(up: Chan, m: Msg) returns (first: Chan, kicked: Chan)
    requires Sound(up) && PoolFits(up) && up.ready && up.rRx.NoRx? && BUFFER_SIZE <= up.pool.avail
    requires SendsAt(up.txq, 0, 0, 0, 0) && up.gotR == up.sentR == [] && |m.data| <= PAYLOAD_MAX
    ensures Reaches(true, up, first) && first.sentR == [m] && MustNotify(first.txq, ToDevice)
    ensures TEnabled(first, Signal(false, DriverKick)) && kicked == TNext(first, Signal(false, DriverKick))
    ensures Sound(kicked) && kicked.ready && kicked.rRx.NoRx? && PoolFits(kicked) && SendsAt(kicked.txq, 1, 1, 0, 0)
    ensures kicked.sentR == [m]
  {
    Begin(true, up);
    var t1 := TxPoolCall(up, up, ZeroCell());
    first := Enqueue(up, t1, PoolPtr(up.pool), m, 0, 0, 0);
    GoodQueues(first);
    WhoHears(first.txq);
    kicked := SignalCall(true, up, first, false, DriverKick);
    KickSends(first.txq, 1, 0, 0, 0);
  }

  lemma SecondSend(t: Chan, m: Msg) returns (second: Chan)
    requires Sound(t) && PoolFits(t) && t.ready && SendsAt(t.txq, 1, 1, 1, 0) && |m.data| <= PAYLOAD_MAX
    ensures Reaches(true, t, second) && second.sentR == t.sentR + [m] && second.gotR == t.gotR
    ensures TEnabled(second, Signal(false, DriverKick)) && !MustNotify(second.txq, ToDevice)
  {
    var t1, buf := TakeBack(t);
    second := Enqueue(t, t1, buf, m, 1, 1, 1);
    GoodQueues(second);
    WhoHears(second.txq);
  }

  /** The master takes back the buffer of the first message. */
  lemma TakeBack(t: Chan) returns (t': Chan, buf: nat)
    requires Sound(t) && PoolFits(t) && t.ready && SendsAt(t.txq, 1, 1, 1, 0)
    ensures Along(true, t, t') && PoolFits(t') && SendsAt(t'.txq, 1, 1, 1, 1)
    ensures buf in t'.mTx && t'.mTx[buf] == Hand(buf, BUFFER_SIZE, Blank)
    ensures t'.sentR == t.sentR && t'.gotR == t.gotR
  {
    Begin(true, t);
    t' := TxReclaimCall(t, t);
    buf := FrontCookie(t.txq);
    GetSends(t.txq, 1, 1, 0);
  }

  lemma Drained(t: Chan)
    requires Sound(t) && t.rRx.NoRx? && SendsAt(t.txq, 1, 1, 1, 0)
    ensures t.gotR == t.sentR
  {
    Open(t);
  }
}
