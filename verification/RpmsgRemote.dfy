/** The remote's side of the RPMsg transport in place: it sends in buffers that the master has offered
    and gives them back filled, and it returns each received buffer after looking at it. */
module RpmsgRemote {
  import opened QueueState
  import opened QueueInvariant
  import opened QueueNotify
  import opened Virtqueue
  import opened RpState
  import opened RpInvariant
  import opened RpCalls
  import opened RpKicks
  import opened RpmsgShared
  import opened RpmsgErrors

  // ---- On values ----

  /** The queue is idle, and looking at it when nothing is offered leaves it as it is. */
  ghost predicate Takeable(q: Sys) {
    Inv(q) && q.vpc.VIdle? && q.h.taken <= q.h.pub <= |q.h.added| && (q.h.taken == q.h.pub ==> Next(q, AvailLook) == q)
  }

  /** The oldest offered chain is a single buffer of full size. */
  ghost predicate OfferIs(q: Sys, head: nat, buffer: nat) {
    && q.h.taken < |q.h.added| && |q.h.added[q.h.taken].idxs| == 1
    && q.h.added[q.h.taken].idxs[0] == head && q.h.added[q.h.taken].bufs == [Buf(buffer, BUFFER_SIZE)]
  }

  lemma TakeableQueues(t: Chan)
    requires Sound(t)
    ensures t.rxq.vpc.VIdle? ==> Takeable(t.rxq)
    ensures t.txq.vpc.VIdle? ==> Takeable(t.txq)
  {
    Open(t);
    Window(t.txq);
    Window(t.rxq);
    LookEmpty(t.txq);
    LookEmpty(t.rxq);
  }

  /** A sender on the remote holds the buffer, under its descriptor head. */
  ghost predicate InRemoteHand(t: Chan, t': Chan, head: nat, buffer: nat) {
    && t' == t.(rxq := TakeCall(t.rxq), rTx := t'.rTx)
    && head in t'.rTx && t'.rTx[head] == Hand(buffer, BUFFER_SIZE, Blank)
    && t'.rxq.vpc.VIdle? && t'.rxq.n == t.rxq.n
    && Unkicked(t.rxq, t'.rxq, ToDriver) && t'.rxq.h.ret == t.rxq.h.ret
  }

  lemma TxNext(t0: Chan, t: Chan) returns (t': Chan, head: nat, buffer: nat)
    requires Along(false, t0, t) && t.ready && Takeable(t.rxq)
    ensures Along(false, t0, t')
    ensures if t.rxq.h.taken == t.rxq.h.pub then t' == t
            else OfferIs(t.rxq, head, buffer) && InRemoteHand(t, t', head, buffer)
  {
    t', head, buffer := t, 0, 0;
    if t.rxq.h.taken < t.rxq.h.pub {
      TakeUnkicked(t.rxq);
      t' := RTakeCall(t0, t);
      head, buffer := t.rxq.h.added[t.rxq.h.taken].idxs[0], t.rxq.h.added[t.rxq.h.taken].cookie;
    }
  }

  /** The front of the queue, if any, is a single buffer of full size. */
  lemma FrontSize(t: Chan)
    requires Sound(t) && t.rxq.h.taken < t.rxq.h.pub
    ensures t.rxq.h.taken < |t.rxq.h.added| && |t.rxq.h.added[t.rxq.h.taken].bufs| == 1
    ensures t.rxq.h.added[t.rxq.h.taken].bufs[0].len == BUFFER_SIZE
  {
    SoundQueues(t);
    OfferMeans(t.rxq, 0);
  }

  ghost predicate GivenBack(t: Chan, t': Chan, head: nat, m: Msg) {
    && Inv(t.rxq) && Held(t.rxq.h, head) && head < t.rxq.n && t.rxq.vpc.VIdle?
    && t' == t.(rxq := GiveCall(t.rxq, head, BUFFER_SIZE), rTx := t'.rTx, sentM := t.sentM + [m])
  }

  lemma FillNext(t0: Chan, t: Chan, head: nat, buffer: nat, m: Msg) returns (t1: Chan, t2: Chan)
    requires Along(false, t0, t) && t.rxq.vpc.VIdle? && |m.data| <= PAYLOAD_MAX
    requires head in t.rTx && t.rTx[head] == Hand(buffer, BUFFER_SIZE, Blank)
    ensures Written(t, t1, buffer, m) && GivenBack(t1, t2, head, m)
    ensures Along(false, t0, t2) && t2.rxq.vpc.VIdle?
  {
    CellsWhole(t);
    t1 := RWriteCall(t0, t, head, m);
    SoundQueues(t1);
    t2 := REnqueueCall(t0, t1, head, buffer, m);
  }

  /** The remote's states while it fills, gives back and announces the buffer in a sender's hand. */
  lemma SendNext(t0: Chan, t: Chan, head: nat, buffer: nat, m: Msg) returns (t1: Chan, t2: Chan, t3: Chan)
    requires Along(false, t0, t) && t.rxq.vpc.VIdle? && |m.data| <= PAYLOAD_MAX
    requires head in t.rTx && t.rTx[head] == Hand(buffer, BUFFER_SIZE, Blank)
    ensures Written(t, t1, buffer, m) && GivenBack(t1, t2, head, m)
    ensures t3 == t2.(rxq := Next(t2.rxq, DeviceKick)) && t3.rxq.vpc.VIdle?
    ensures Along(false, t0, t3)
    ensures Inv(t2.rxq) && Unkicked(t.rxq, t2.rxq, ToDriver) && t2.rxq.h.ret == t.rxq.h.ret + 1
  {
    t1, t2 := FillNext(t0, t, head, buffer, m);
    SoundQueues(t2);
    GiveUnkicked(t1.rxq, head, BUFFER_SIZE);
    t3 := SignalCall(false, t0, t2, true, DeviceKick);
  }

  /** The loop holds no buffer. */
  ghost predicate RxIdle(t: Chan) {
    t.ready && t.rRx.NoRx? && t.txq.vpc.VIdle?
  }

  /** The loop holds a buffer it has not looked at. */
  ghost predicate RxFull(t: Chan, buffer: nat, head: nat) {
    t.ready && t.rRx == Got(buffer, head, BUFFER_SIZE, false) && t.txq.vpc.VIdle?
  }

  ghost predicate RxTaken(t: Chan, t': Chan, buffer: nat, head: nat) {
    if t.txq.h.taken < t.txq.h.pub then
      OfferIs(t.txq, head, buffer) && t' == t.(txq := TakeCall(t.txq), rRx := Got(buffer, head, BUFFER_SIZE, false))
    else t' == t
  }

  /** The loop has moved on to the next offered buffer if there is one. */
  ghost predicate RxMoved(t: Chan, t': Chan, found: bool, buffer: nat, head: nat) {
    && t'.sentR == t.sentR && t'.txq.h.pub == t.txq.h.pub
    && (found <==> t.txq.h.taken < t.txq.h.pub)
    && if found then RxFull(t', buffer, head) && t'.txq.h.taken == t.txq.h.taken + 1
       else RxIdle(t') && t'.txq.h.taken == t.txq.h.taken
  }

  lemma RxNext(t0: Chan, t: Chan) returns (t': Chan, buffer: nat, head: nat)
    requires Along(false, t0, t) && RxIdle(t) && Takeable(t.txq)
    ensures Along(false, t0, t') && RxTaken(t, t', buffer, head)
    ensures RxMoved(t, t', t.txq.h.taken < t.txq.h.pub, buffer, head)
    ensures Unkicked(t.txq, t'.txq, ToDriver)
  {
    t', buffer, head := t, 0, 0;
    if t.txq.h.taken < t.txq.h.pub {
      TakeUnkicked(t.txq);
      t' := RRxTakeCall(t0, t);
      head, buffer := t.txq.h.added[t.txq.h.taken].idxs[0], t.txq.h.added[t.txq.h.taken].cookie;
    }
  }

  /** The remote's states while it looks at a buffer and returns it. */
  lemma HandleNext(t0: Chan, t: Chan, buffer: nat, head: nat) returns (t1: Chan, t2: Chan)
    requires Along(false, t0, t) && RxFull(t, buffer, head)
    ensures Along(false, t0, t2) && RxIdle(t2)
    ensures 0 < t.txq.h.taken <= |t.sentR| && buffer in t.mem && ReadMsg(t.mem[buffer]) == t.sentR[t.txq.h.taken - 1]
    ensures t1 == t.(gotR := t1.gotR, rRx := Got(buffer, head, BUFFER_SIZE, true))
    ensures Inv(t1.txq) && Held(t1.txq.h, head) && head < t1.txq.n
    ensures t2 == t1.(txq := GiveCall(t1.txq, head, BUFFER_SIZE), rRx := NoRx)
    ensures t2.txq.h.taken == t.txq.h.taken && t2.txq.h.pub == t.txq.h.pub
    ensures Unkicked(t.txq, t2.txq, ToDriver)
  {
    t1 := RReadCall(t0, t);
    SoundQueues(t1);
    GiveUnkicked(t1.txq, head, BUFFER_SIZE);
    t2 := RReturnCall(t0, t1);
  }

  /** The loop that started in t0 has delivered msgs and holds the buffer, if any. */
  ghost predicate RxLoop(t0: Chan, t: Chan, found: bool, buffer: nat, head: nat, msgs: seq<Msg>) {
    && t.sentR == t0.sentR && t0.txq.h.taken <= t.txq.h.taken <= t.txq.h.pub == t0.txq.h.pub <= |t.sentR|
    && if found then
         RxFull(t, buffer, head) && Stretch(t.sentR, t0.txq.h.taken, t.txq.h.taken - 1, msgs)
       else
         RxIdle(t) && t.txq.h.taken == t.txq.h.pub && Stretch(t.sentR, t0.txq.h.taken, t.txq.h.taken, msgs)
  }

  /** Whether the receive loop has kicked, since t0, for the buffers that it has given back. */
  ghost predicate RxKick(t0: Chan, t: Chan, kicked: bool, n: nat, n': nat) {
    if kicked then KickedOnce(t0.txq, t.txq, ToDriver, n, n') else Unkicked(t0.txq, t.txq, ToDriver) && n' == n
  }

  /** What an idle receive loop has delivered. */
  lemma IdleLog(t: Chan)
    requires Sound(t) && RxIdle(t)
    ensures t.txq.h.taken <= t.txq.h.pub <= |t.sentR| && t.gotR == t.sentR[..t.txq.h.taken]
  {
    Open(t);
    Window(t.txq);
  }

  // ---- The remote ----

  class RpmsgRemote {
    const rvq: Virtqueue
    const svq: Virtqueue
    const shm: SharedMemory

    ghost predicate Separate() {
      && rvq.role.Slave? && svq.role.Slave?
      && rvq.Footprint() !! svq.Footprint() && {this, shm} !! rvq.Footprint() + svq.Footprint()
    }

    /** This side's objects hold the state t. */
    ghost predicate Matches(t: Chan)
      reads rvq.Footprint(), svq.Footprint(), shm
    {
      Separate() && rvq.Matches(t.txq) && svq.Matches(t.rxq) && shm.Matches(t)
    }

    constructor (rvq: Virtqueue, svq: Virtqueue, shm: SharedMemory)
      ensures this.rvq == rvq && this.svq == svq && this.shm == shm
    {
      this.rvq, this.svq, this.shm := rvq, svq, shm;
    }

    /** The remote's part of rpmsg_init_vdev, once the master has set DRIVER_OK: no interrupts for buffers
        that the master offers on the send queue. */
    method InitVdev(ghost t: Chan) returns (ghost t': Chan)
      requires Matches(t) && Sound(t) && t.ready && t.rxq.vpc.VIdle?
      modifies svq.Footprint()
      ensures Matches(t') && Along(false, t, t')
      ensures t' == t.(rxq := Next(t.rxq, DeviceDisarm)) && t'.rxq.vpc.VIdle?
    {
      Begin(false, t);
      t' := SignalCall(false, t, t, true, DeviceDisarm);
      DisableSendCallback(t, t');
    }

    method DisableSendCallback(ghost t: Chan, ghost t': Chan)
      requires Matches(t) && t' == t.(rxq := Next(t.rxq, DeviceDisarm))
      modifies svq.Footprint()
      ensures Matches(t')
    {
      svq.DisableCb(t.rxq);
    }

    /** virtqueue_get_available_buffer. */
    method TakeOne(vq: Virtqueue, ghost q: Sys, ghost q': Sys, ghost h: nat, ghost b: nat)
      returns (found: bool, buffer: nat, head: nat, len: nat)
      requires vq.Matches(q) && Takeable(q) && vq.role.Slave?
      requires if q.h.taken < q.h.pub then q' == TakeCall(q) && OfferIs(q, h, b) else q' == q
      modifies vq.Footprint()
      ensures vq.Matches(q') && (found <==> q.h.taken < q.h.pub) && vq.notified == old(vq.notified)
      ensures found ==> buffer == b && head == h && len == BUFFER_SIZE
    {
      found, buffer, head, len := vq.GetAvailableBuffer(q);
    }

    /** virtqueue_add_consumed_buffer for a head that the remote holds. */
    method GiveOne(vq: Virtqueue, head: nat, len: nat, ghost q: Sys, ghost q': Sys) returns (status: int)
      requires vq.Matches(q) && Inv(q) && vq.role.Slave? && q.vpc.VIdle?
      requires Held(q.h, head) && head < q.n && q' == GiveCall(q, head, len)
      modifies vq.Footprint()
      ensures vq.Matches(q') && status == VQUEUE_SUCCESS && vq.notified == old(vq.notified)
    {
      status := vq.AddConsumedBuffer(head, len, q);
    }

    /** _rpmsg_virtio_get_buffer_size: what the next offered buffer can carry, 0 if none is offered. */
    method GetBufferSize(ghost t: Chan) returns (limit: nat)
      requires Matches(t) && Sound(t)
      ensures limit == if t.rxq.h.taken == t.rxq.h.pub then 0 else PAYLOAD_MAX
    {
      SoundQueues(t);
      Window(t.rxq);
      if t.rxq.h.taken < t.rxq.h.pub { FrontSize(t); }
      var len := svq.GetDescSize(t.rxq);
      limit := if len < HEADER_SIZE then 0 else len - HEADER_SIZE;
    }

    /** rpmsg_virtio_get_tx_buffer. */
    method GetTxBuffer(ghost t0: Chan, ghost t: Chan)
      returns (found: bool, buffer: nat, head: nat, len: nat, ghost t': Chan)
      requires Matches(t) && Along(false, t0, t) && t.ready && t.rxq.vpc.VIdle?
      modifies svq.Footprint()
      ensures Matches(t') && Along(false, t0, t')
      ensures (found <==> t.rxq.h.taken != t.rxq.h.pub) && svq.notified == old(svq.notified)
      ensures if found then len == BUFFER_SIZE && InRemoteHand(t, t', head, buffer) else t' == t
    {
      TakeableQueues(t);
      ghost var h, b;
      t', h, b := TxNext(t0, t);
      found, buffer, head, len := TakeOne(svq, t.rxq, t'.rxq, h, b);
    }

    /** The retry loop of rpmsg_virtio_send_offchannel_raw while the master does nothing. */
    method AwaitBuffer(size: nat, wait: bool, ghost t0: Chan, ghost t: Chan)
      returns (err: int, buffer: nat, head: nat, len: nat, ghost t': Chan, ghost polls: nat)
      requires Matches(t) && Along(false, t0, t) && t.ready && t.rxq.vpc.VIdle?
      modifies svq.Footprint()
      ensures Matches(t') && Along(false, t0, t')
      ensures err ==
        if t.rxq.h.taken == t.rxq.h.pub then RPMSG_ERR_NO_BUFF
        else if size > PAYLOAD_MAX then RPMSG_ERR_BUFF_SIZE else RPMSG_SUCCESS
      ensures if err < 0 then t' == t else len == BUFFER_SIZE && InRemoteHand(t, t', head, buffer)
      ensures polls == if wait && err == RPMSG_ERR_NO_BUFF then TICKS + 1 else 1
      ensures svq.notified == old(svq.notified)
    {
      t', polls := t, 0;
      var ticks: nat := if wait then TICKS else 0;
      while true
        invariant t' == t && Matches(t) && Along(false, t0, t) && svq.notified == old(svq.notified)
        invariant polls + ticks == (if wait then TICKS else 0) && (polls > 0 ==> t.rxq.h.taken == t.rxq.h.pub)
        decreases ticks
      {
        var limit := GetBufferSize(t);
        polls := polls + 1;
        if limit != 0 && size > limit {
          return RPMSG_ERR_BUFF_SIZE, 0, 0, 0, t, polls;
        }
        var found;
        found, buffer, head, len, t' := GetTxBuffer(t0, t);
        if found {
          err := RPMSG_SUCCESS;
          return;
        }
        if ticks == 0 || limit != 0 {
          err := if ticks == 0 then RPMSG_ERR_NO_BUFF else RPMSG_ERR_BUFF_SIZE;
          return;
        }
        ticks := ticks - 1;
      }
    }

    method WriteMessage(buffer: nat, m: Msg, ghost t: Chan, ghost t': Chan)
      requires Matches(t) && Written(t, t', buffer, m)
      modifies shm
      ensures Matches(t')
    {
      shm.WriteMessage(buffer, m);
    }

    /** rpmsg_virtio_enqueue_buffer. */
    method EnqueueBuffer(head: nat, len: nat, ghost m: Msg, ghost t: Chan, ghost t': Chan) returns (status: int)
      requires Matches(t) && len == BUFFER_SIZE && GivenBack(t, t', head, m)
      modifies svq.Footprint()
      ensures Matches(t') && status == VQUEUE_SUCCESS && svq.notified == old(svq.notified)
    {
      status := GiveOne(svq, head, len, t.rxq, t'.rxq);
    }

    method KickSend(ghost t: Chan, ghost t': Chan)
      requires Matches(t) && t' == t.(rxq := Next(t.rxq, DeviceKick))
      modifies svq.Footprint()
      ensures Matches(t') && svq.notified == old(svq.notified) + (if MustNotify(t.rxq, ToDriver) then 1 else 0)
    {
      svq.Kick(t.rxq);
    }

    method KickReceive(ghost t: Chan, ghost t': Chan)
      requires Matches(t) && t' == t.(txq := Next(t.txq, DeviceKick))
      modifies rvq.Footprint()
      ensures Matches(t') && rvq.notified == old(rvq.notified) + (if MustNotify(t.txq, ToDriver) then 1 else 0)
    {
      rvq.Kick(t.txq);
    }

    /** rpmsg_virtio_send_offchannel_raw while the master does nothing. A successful send ends with a kick,
        which announces this message and all that were returned before it. */
    method Send(src: nat, dst: nat, data: seq<nat>, wait: bool, ghost t: Chan) returns (ret: int, ghost t': Chan)
      requires Matches(t) && Sound(t) && t.rxq.vpc.VIdle?
      modifies svq.Footprint(), shm
      ensures Matches(t') && Along(false, t, t')
      ensures ret ==
        if !t.ready then RPMSG_ERR_DEV_STATE
        else if t.rxq.h.taken == t.rxq.h.pub then RPMSG_ERR_NO_BUFF
        else if |data| > PAYLOAD_MAX then RPMSG_ERR_BUFF_SIZE
        else |data|
      ensures ret < 0 ==> t' == t
      ensures ret >= 0 ==> t'.sentM == t.sentM + [Msg(src, dst, data)] && t'.rxq.vpc.VIdle?
      ensures ret >= 0 ==>
        && t'.rxq.h.kickedUsed == t'.rxq.h.ret == t.rxq.h.ret + 1
        && KickedOnce(t.rxq, t'.rxq, ToDriver, old(svq.notified), svq.notified)
      ensures ret < 0 ==> svq.notified == old(svq.notified)
    {
      Begin(false, t);
      if !shm.driverOk {
        return RPMSG_ERR_DEV_STATE, t;
      }
      ghost var u, polls;
      var err, buffer, head, len;
      err, buffer, head, len, u, polls := AwaitBuffer(|data|, wait, t, t);
      if err < 0 {
        return err, u;
      }
      ghost var m := Msg(src, dst, data);
      ghost var t1, t2, t3 := SendNext(t, u, head, buffer, m);
      WriteMessage(buffer, Msg(src, dst, data), u, t1);
      var status := EnqueueBuffer(head, len, m, t1, t2);
      UnkickedMore(t.rxq, u.rxq, t2.rxq, ToDriver);
      KickSend(t2, t3);
      KickMeans(t.rxq, t2.rxq, t3.rxq, ToDriver, old(svq.notified), svq.notified);
      ret, t' := |data|, t3;
    }

    /** rpmsg_virtio_get_rx_buffer. */
    method GetRxBuffer(ghost t0: Chan, ghost t: Chan)
      returns (found: bool, buffer: nat, head: nat, len: nat, ghost t': Chan)
      requires Matches(t) && Along(false, t0, t) && RxIdle(t)
      modifies rvq.Footprint()
      ensures Matches(t') && Along(false, t0, t') && RxMoved(t, t', found, buffer, head)
      ensures found ==> len == BUFFER_SIZE
      ensures Unkicked(t.txq, t'.txq, ToDriver) && rvq.notified == old(rvq.notified)
    {
      TakeableQueues(t);
      ghost var b, h;
      t', b, h := RxNext(t0, t);
      found, buffer, head, len := TakeOne(rvq, t.txq, t'.txq, h, b);
    }

    /** rpmsg_virtio_return_buffer. */
    method ReturnBuffer(head: nat, len: nat, ghost t: Chan, ghost t': Chan) returns (status: int)
      requires Matches(t) && Inv(t.txq) && Held(t.txq.h, head) && head < t.txq.n && t.txq.vpc.VIdle?
      requires t' == t.(txq := GiveCall(t.txq, head, len), rRx := t'.rRx)
      modifies rvq.Footprint()
      ensures Matches(t') && status == VQUEUE_SUCCESS && rvq.notified == old(rvq.notified)
    {
      status := GiveOne(rvq, head, len, t.txq, t'.txq);
    }

    /** The message goes to a callback and the buffer back to the master. */
    method Handle(buffer: nat, head: nat, len: nat, ghost t0: Chan, ghost t: Chan) returns (m: Msg, ghost t': Chan)
      requires Matches(t) && Along(false, t0, t) && RxFull(t, buffer, head) && len == BUFFER_SIZE
      modifies rvq.Footprint()
      ensures Matches(t') && Along(false, t0, t') && RxIdle(t')
      ensures t'.sentR == t.sentR && t'.txq.h.taken == t.txq.h.taken && t'.txq.h.pub == t.txq.h.pub
      ensures 0 < t.txq.h.taken <= |t.sentR| && m == t.sentR[t.txq.h.taken - 1]
      ensures Unkicked(t.txq, t'.txq, ToDriver) && rvq.notified == old(rvq.notified)
    {
      ghost var t1, t2 := HandleNext(t0, t, buffer, head);
      m := ReadMsg(shm.Load(buffer));
      var status := ReturnBuffer(head, len, t1, t2);
      t' := t2;
    }

    /** The next buffer, or a kick if there is none. */
    method TakeOrKick(ghost t0: Chan, ghost t: Chan)
      returns (found: bool, buffer: nat, head: nat, len: nat, ghost t': Chan)
      requires Matches(t) && Along(false, t0, t) && RxIdle(t) && Unkicked(t0.txq, t.txq, ToDriver)
      modifies rvq.Footprint()
      ensures Matches(t') && Along(false, t0, t') && RxMoved(t, t', found, buffer, head)
      ensures found ==> len == BUFFER_SIZE
      ensures RxKick(t0, t', !found, old(rvq.notified), rvq.notified)
    {
      ghost var u;
      found, buffer, head, len, u := GetRxBuffer(t0, t);
      UnkickedMore(t0.txq, t.txq, u.txq, ToDriver);
      t' := u;
      if !found {
        t' := SignalCall(false, t0, u, false, DeviceKick);
        SoundQueues(u);
        KickReceive(u, t');
        KickMeans(t0.txq, u.txq, t'.txq, ToDriver, old(rvq.notified), rvq.notified);
      }
    }

    /** One round of the loop in rpmsg_virtio_rx_callback. */
    method Round(buffer: nat, head: nat, len: nat, msgs: seq<Msg>, ghost t0: Chan, ghost t: Chan)
      returns (found: bool, buffer': nat, head': nat, len': nat, msgs': seq<Msg>, ghost t': Chan)
      requires Matches(t) && Along(false, t0, t) && RxLoop(t0, t, true, buffer, head, msgs) && len == BUFFER_SIZE
      requires Unkicked(t0.txq, t.txq, ToDriver)
      modifies rvq.Footprint()
      ensures Matches(t') && Along(false, t0, t') && RxLoop(t0, t', found, buffer', head', msgs') && |msgs| < |msgs'|
      ensures RxKick(t0, t', !found, old(rvq.notified), rvq.notified)
      ensures found ==> len' == BUFFER_SIZE && t.txq.h.taken < t'.txq.h.taken
    {
      StretchOn(t0.sentR, t0.txq.h.taken, t.txq.h.taken - 1, msgs);
      var m, u := Handle(buffer, head, len, t0, t);
      msgs' := msgs + [m];
      UnkickedMore(t0.txq, t.txq, u.txq, ToDriver);
      found, buffer', head', len', t' := TakeOrKick(t0, u);
    }

    /** rpmsg_virtio_rx_callback: it delivers, in order and each once, exactly the messages that the
        master had published and the remote had not yet taken. If there were any, it ends with one kick,
        which announces all the buffers that it has given back. */
    method RxCallback(ghost t: Chan) returns (msgs: seq<Msg>, ghost t': Chan)
      requires Matches(t) && Sound(t) && RxIdle(t)
      modifies rvq.Footprint()
      ensures Matches(t') && Along(false, t, t') && RxIdle(t')
      ensures t.txq.h.taken <= t.txq.h.pub <= |t.sentR| && msgs == t.sentR[t.txq.h.taken..t.txq.h.pub]
      ensures t'.sentR == t.sentR && t'.gotR == t.gotR + msgs
      ensures RxKick(t, t', msgs != [], old(rvq.notified), rvq.notified)
    {
      IdleLog(t);
      Begin(false, t);
      msgs := [];
      var found, buffer, head, len;
      found, buffer, head, len, t' := GetRxBuffer(t, t);
      while found
        invariant Matches(t') && Along(false, t, t') && RxLoop(t, t', found, buffer, head, msgs)
        invariant found ==> len == BUFFER_SIZE
        invariant RxKick(t, t', !found && msgs != [], old(rvq.notified), rvq.notified)
        decreases found, t.txq.h.pub - t'.txq.h.taken
      {
        found, buffer, head, len, msgs, t' := Round(buffer, head, len, msgs, t, t');
      }
      IdleLog(t');
      StretchLog(t.sentR, t.txq.h.taken, t.txq.h.pub, msgs);
    }
  }
}
