/** The master's side of the RPMsg transport in place: the loop that posts the receive buffers, the
    send path and the receive loop. Each call is shown to take steps of the state machine in
    RpState, its own side's only. */
module RpmsgMaster {
  import opened Bits
  import opened QueueState
  import opened QueueInvariant
  import opened QueueTheorems
  import opened QueueNotify
  import opened Virtqueue
  import opened RpState
  import opened RpInvariant
  import opened RpTheorems
  import opened RpCalls
  import opened RpKicks
  import opened RpmsgShared
  import opened RpmsgErrors

  // ---- The master's send path, on values ----

  /** The buffer that the master's send path gets: the oldest finished one, else one from the pool. */
  ghost function TxBuffer(t: Chan): nat {
    if t.txq.h.recl < t.txq.h.ret then FrontCookie(t.txq)
    else if BUFFER_SIZE <= t.pool.avail then PoolPtr(t.pool) else NULL
  }

  ghost predicate PoolSane(t: Chan) { 1 <= t.pool.base && t.pool.avail <= t.pool.size }

  /** The queue is idle, and looking at it when nothing was returned leaves it as it is. */
  ghost predicate Lookable(q: Sys) {
    Inv(q) && q.dpc.DIdle? && q.h.recl <= q.h.ret && (q.h.recl == q.h.ret ==> Next(q, UsedLook) == q)
  }

  /** Nothing has changed but what the master knows of the send queue. */
  ghost predicate Untaken(t: Chan, t': Chan) { t' == t.(dry := t'.dry) }

  ghost predicate TxTaken(t: Chan, t': Chan, junk: Cell) {
    if t.txq.h.recl < t.txq.h.ret then
      && DoneAt(t.txq.h, t.txq.h.recl).len == BUFFER_SIZE
      && t' == t.(txq := GetCall(t.txq), mTx := t'.mTx, spot := t'.spot, dry := t'.dry)
    else if BUFFER_SIZE <= t.pool.avail then
      t' == t.(pool := PoolTake(t.pool), mem := t.mem[PoolPtr(t.pool) := junk], mTx := t'.mTx, spot := t'.spot,
               dry := t'.dry)
    else Untaken(t, t')
  }

  /** A sender holds the buffer, and nothing but the places of buffers has changed. */
  ghost predicate InHand(t: Chan, t': Chan, buffer: nat) {
    && buffer in t'.mTx && t'.mTx[buffer] == Hand(buffer, BUFFER_SIZE, Blank)
    && t' == t.(txq := t'.txq, pool := t'.pool, mem := t'.mem, mTx := t'.mTx, spot := t'.spot, dry := t'.dry)
    && t'.txq.dpc.DIdle? && t'.txq.n == t.txq.n && t'.pool.size == t.pool.size
    && Unkicked(t.txq, t'.txq, ToDevice) && t'.txq.h.pub == t.txq.h.pub
    && Preferred(t, t')
  }

  /** A finished buffer is used again before the pool is asked for another one. */
  ghost predicate Preferred(t: Chan, t': Chan) {
    if t.txq.h.recl < t.txq.h.ret then t'.pool == t.pool && t'.txq.h.recl == t.txq.h.recl + 1
    else t'.pool.avail == t.pool.avail - BUFFER_SIZE && t'.txq.h.recl == t.txq.h.recl
  }

  lemma LookableQueues(t: Chan)
    requires Sound(t)
    ensures t.txq.dpc.DIdle? ==> Lookable(t.txq)
    ensures t.rxq.dpc.DIdle? ==> Lookable(t.rxq)
    ensures PoolSane(t)
  {
    Open(t);
    Window(t.txq);
    Window(t.rxq);
    LookEmpty(t.txq);
    LookEmpty(t.rxq);
  }

  lemma TxBufferMeans(t: Chan)
    requires Lookable(t.txq) && PoolSane(t)
    ensures TxBuffer(t) != NULL <==> t.txq.h.recl < t.txq.h.ret || BUFFER_SIZE <= t.pool.avail
  {
    if t.txq.h.recl < t.txq.h.ret { FrontNotNull(t.txq); }
  }

  lemma TxNext(t0: Chan, t: Chan, junk: Cell) returns (t': Chan)
    requires Along(true, t0, t) && t.ready && Lookable(t.txq) && |junk.data| == PAYLOAD_MAX && PoolSane(t)
    ensures Along(true, t0, t') && TxTaken(t, t', junk)
    ensures if TxBuffer(t) == NULL then Untaken(t, t') else InHand(t, t', TxBuffer(t))
  {
    if t.txq.h.recl < t.txq.h.ret {
      FrontNotNull(t.txq);
      GetUnkicked(t.txq);
      AddKeeps(t.txq, 0);
      t' := TxReclaimCall(t0, t);
    } else if BUFFER_SIZE <= t.pool.avail {
      t' := TxPoolCall(t0, t, junk);
    } else {
      t' := TxNoneCall(t0, t);
    }
  }

  lemma FrontNotNull(q: Sys)
    requires Inv(q) && q.h.recl < q.h.ret
    ensures FrontCookie(q) != NULL
  {
    DriverReadsFront(q);
    Window(q);
    assert Abs(q).done[0] == DoneAt(q.h, q.h.recl);
  }

  ghost predicate Enqueued(t: Chan, t': Chan, buffer: nat, m: Msg) {
    && Inv(t.txq) && Enabled(t.txq, AddWrite([Buf(buffer, BUFFER_SIZE)], 1, buffer))
    && t' == t.(txq := AddCall(t.txq, buffer, BUFFER_SIZE, 1), mTx := t'.mTx, sentR := t.sentR + [m],
                spot := t'.spot, dry := t'.dry)
  }

  /** The master's states while it fills, enqueues and announces the buffer in a sender's hand. */
  lemma SendNext(t0: Chan, t: Chan, buffer: nat, m: Msg) returns (t1: Chan, t2: Chan, t3: Chan)
    requires Along(true, t0, t) && PoolFits(t) && InHand(t0, t, buffer) && |m.data| <= PAYLOAD_MAX
    ensures Written(t, t1, buffer, m) && Enqueued(t1, t2, buffer, m)
    ensures t3.sentR == t0.sentR + [m] && t3.pool == t.pool && t3.txq.h.recl == t.txq.h.recl
    ensures t3 == t2.(txq := Next(t2.txq, DriverKick)) && t3.txq.dpc.DIdle?
    ensures Along(true, t0, t3)
    ensures Inv(t2.txq) && Unkicked(t0.txq, t2.txq, ToDevice) && t2.txq.h.pub == t0.txq.h.pub + 1
  {
    t1, t2 := FillNext(t0, t, buffer, m);
    AfterEnqueue(t, t1, t2, buffer, m);
    SoundQueues(t2);
    UnkickedMore(t0.txq, t.txq, t2.txq, ToDevice);
    t3 := SignalCall(true, t0, t2, false, DriverKick);
    KickKeeps(t2.txq);
  }

  /** What writing and enqueueing leave as it was. */
  lemma AfterEnqueue(t: Chan, t1: Chan, t2: Chan, buffer: nat, m: Msg)
    requires Written(t, t1, buffer, m) && Enqueued(t1, t2, buffer, m)
    ensures Unkicked(t.txq, t2.txq, ToDevice) && t2.txq.h.pub == t.txq.h.pub + 1 && t2.txq.h.recl == t.txq.h.recl
    ensures t2.sentR == t.sentR + [m] && t2.pool == t.pool
  {
    AddUnkicked(t1.txq, buffer, BUFFER_SIZE, 1);
    AddKeeps(t1.txq, buffer);
  }

  lemma KickKeeps(q: Sys)
    ensures Next(q, DriverKick).h.recl == q.h.recl
  {}

  lemma FillNext(t0: Chan, t: Chan, buffer: nat, m: Msg) returns (t1: Chan, t2: Chan)
    requires Along(true, t0, t) && PoolFits(t) && t.txq.dpc.DIdle? && |m.data| <= PAYLOAD_MAX
    requires buffer in t.mTx && t.mTx[buffer] == Hand(buffer, BUFFER_SIZE, Blank)
    ensures Written(t, t1, buffer, m) && Enqueued(t1, t2, buffer, m)
    ensures Along(true, t0, t2) && t2.txq.dpc.DIdle?
  {
    CellsWhole(t);
    t1 := WriteCall(t0, t, buffer, m);
    SoundQueues(t1);
    t2 := EnqueueCall(t0, t1, buffer, m);
  }

  lemma AddKeeps(q: Sys, buffer: nat)
    ensures AddCall(q, buffer, BUFFER_SIZE, 1).h.recl == q.h.recl && GetCall(q).h.recl == q.h.recl + 1
  {}

  /** What posting one receive buffer does to the state. */
  ghost predicate Posted(t: Chan, t': Chan) {
    var p := PoolPtr(t.pool);
    && Inv(t.rxq) && Enabled(t.rxq, AddWrite([Buf(p, BUFFER_SIZE)], 0, p))
    && t' == t.(rxq := AddCall(t.rxq, p, BUFFER_SIZE, 0), pool := PoolTake(t.pool), mem := t.mem[p := ZeroCell()],
                filled := t.filled + 1, spot := t'.spot)
  }

  // ---- The master's receive loop, on values ----

  ghost predicate RxTaken(t: Chan, t': Chan) {
    if t.rxq.h.recl < t.rxq.h.ret then
      && DoneAt(t.rxq.h, t.rxq.h.recl).len == BUFFER_SIZE
      && t' == t.(rxq := GetCall(t.rxq), mRx := t'.mRx, spot := t'.spot)
    else t' == t
  }

  /** The loop holds no buffer. */
  ghost predicate RxIdle(t: Chan) {
    t.ready && t.mRx.NoRx? && t.rxq.dpc.DIdle?
  }

  /** The loop holds a buffer it has not looked at. */
  ghost predicate RxFull(t: Chan, buffer: nat, len: nat) {
    t.ready && t.mRx == Got(buffer, 0, len, false) && t.rxq.dpc.DIdle?
  }

  /** The loop has moved on to the next returned buffer if there is one. */
  ghost predicate RxMoved(t: Chan, t': Chan, buffer: nat, len: nat) {
    && t'.sentM == t.sentM && t'.rxq.h.ret == t.rxq.h.ret
    && if t.rxq.h.recl < t.rxq.h.ret then
         buffer != NULL && RxFull(t', buffer, len) && t'.rxq.h.recl == t.rxq.h.recl + 1
       else buffer == NULL && RxIdle(t') && t'.rxq.h.recl == t.rxq.h.recl
  }

  lemma RxNext(t0: Chan, t: Chan) returns (t': Chan)
    requires Along(true, t0, t) && RxIdle(t) && Lookable(t.rxq)
    ensures Along(true, t0, t') && RxTaken(t, t')
    ensures RxMoved(t, t', if t.rxq.h.recl < t.rxq.h.ret then FrontCookie(t.rxq) else NULL, BUFFER_SIZE)
    ensures Unkicked(t.rxq, t'.rxq, ToDevice)
  {
    t' := t;
    if t.rxq.h.recl < t.rxq.h.ret {
      FrontNotNull(t.rxq);
      GetUnkicked(t.rxq);
      t' := RxTakeCall(t0, t);
    }
  }

  /** The master's states while it looks at a buffer and returns it. */
  lemma HandleNext(t0: Chan, t: Chan, buffer: nat, len: nat) returns (t1: Chan, t2: Chan)
    requires Along(true, t0, t) && RxFull(t, buffer, len)
    ensures Along(true, t0, t2) && RxIdle(t2)
    ensures 0 < t.rxq.h.recl <= |t.sentM| && buffer in t.mem && ReadMsg(t.mem[buffer]) == t.sentM[t.rxq.h.recl - 1]
    ensures t1 == t.(gotM := t1.gotM, mRx := Got(buffer, 0, len, true))
    ensures Inv(t1.rxq) && Enabled(t1.rxq, AddWrite([Buf(buffer, len)], 0, buffer))
    ensures t2 == t1.(rxq := AddCall(t1.rxq, buffer, len, 0), mRx := NoRx, spot := t2.spot)
    ensures t2.rxq.h.recl == t.rxq.h.recl && t2.rxq.h.ret == t.rxq.h.ret
    ensures Unkicked(t.rxq, t2.rxq, ToDevice)
  {
    t1 := ReadCall(t0, t);
    SoundQueues(t1);
    AddUnkicked(t1.rxq, buffer, len, 0);
    t2 := ReturnCall(t0, t1);
  }

  /** The loop that started in t0 has delivered msgs and holds the buffer, if any. */
  ghost predicate RxLoop(t0: Chan, t: Chan, buffer: nat, len: nat, msgs: seq<Msg>) {
    && t.sentM == t0.sentM && t0.rxq.h.recl <= t.rxq.h.recl <= t.rxq.h.ret == t0.rxq.h.ret <= |t.sentM|
    && if buffer == NULL then
         RxIdle(t) && t.rxq.h.recl == t.rxq.h.ret && Stretch(t.sentM, t0.rxq.h.recl, t.rxq.h.recl, msgs)
       else
         RxFull(t, buffer, len) && Stretch(t.sentM, t0.rxq.h.recl, t.rxq.h.recl - 1, msgs)
  }

  /** Whether the receive loop has kicked, since t0, for the buffers that it has given back. */
  ghost predicate RxKick(t0: Chan, t: Chan, kicked: bool, n: nat, n': nat) {
    if kicked then KickedOnce(t0.rxq, t.rxq, ToDevice, n, n') else Unkicked(t0.rxq, t.rxq, ToDevice) && n' == n
  }

  /** What an idle receive loop has delivered. */
  lemma IdleLog(t: Chan)
    requires Sound(t) && RxIdle(t)
    ensures t.rxq.h.recl <= t.rxq.h.ret <= |t.sentM| && t.gotM == t.sentM[..t.rxq.h.recl]
  {
    Open(t);
    Window(t.rxq);
  }

  // ---- The master ----

  class RpmsgMaster {
    const rvq: Virtqueue
    const svq: Virtqueue
    const shpool: ShmPool
    const shm: SharedMemory

    ghost predicate Separate() {
      && rvq.role.Master? && svq.role.Master?
      && rvq.Footprint() !! svq.Footprint() && {this, shpool, shm} !! rvq.Footprint() + svq.Footprint()
    }

    /** This side's objects hold the state t. */
    ghost predicate Matches(t: Chan)
      reads rvq.Footprint(), svq.Footprint(), shpool, shm
    {
      && Separate()
      && rvq.Matches(t.rxq) && svq.Matches(t.txq) && shpool.View() == t.pool && shm.Matches(t)
    }

    constructor (rvq: Virtqueue, svq: Virtqueue, shpool: ShmPool, shm: SharedMemory)
      ensures this.rvq == rvq && this.svq == svq && this.shpool == shpool && this.shm == shm
    {
      this.rvq, this.svq, this.shpool, this.shm := rvq, svq, shpool, shm;
    }

    // Operations with parameters t and t' take the objects from t to t', which the caller has shown
    // to be the next state; operations with t0 also show that.

    /** virtqueue_add_buffer with one buffer. */
    method AddOne(vq: Virtqueue, buffer: nat, len: nat, readable: nat, ghost q: Sys, ghost q': Sys)
      returns (status: int)
      requires vq.Matches(q) && Inv(q) && vq.role.Master?
      requires Enabled(q, AddWrite([Buf(buffer, len)], readable, buffer)) && q' == AddCall(q, buffer, len, readable)
      modifies vq.Footprint()
      ensures vq.Matches(q') && status == VQUEUE_SUCCESS && vq.notified == old(vq.notified)
    {
      status := vq.AddBuffer([Buf(buffer, len)], readable, buffer, q);
    }

    /** virtqueue_get_buffer. */
    method GetOne(vq: Virtqueue, ghost q: Sys, ghost q': Sys) returns (buffer: nat, len: nat)
      requires vq.Matches(q) && Lookable(q) && vq.role.Master?
      requires q' == if q.h.recl < q.h.ret then GetCall(q) else q
      modifies vq.Footprint()
      ensures vq.Matches(q') && vq.notified == old(vq.notified)
      ensures if q.h.recl < q.h.ret then buffer == FrontCookie(q) != NULL && len == DoneAt(q.h, q.h.recl).len
        else buffer == NULL
    {
      var idx;
      buffer, len, idx := vq.GetBuffer(q);
    }

    /** A buffer goes back on the receive queue: rpmsg_virtio_return_buffer. */
    method ReturnBuffer(buffer: nat, len: nat, ghost t: Chan, ghost t': Chan) returns (status: int)
      requires Matches(t) && Inv(t.rxq) && Enabled(t.rxq, AddWrite([Buf(buffer, len)], 0, buffer))
      requires t' == t.(rxq := AddCall(t.rxq, buffer, len, 0), mRx := t'.mRx, filled := t'.filled, spot := t'.spot)
      modifies rvq.Footprint()
      ensures Matches(t') && status == VQUEUE_SUCCESS && rvq.notified == old(rvq.notified)
    {
      status := AddOne(rvq, buffer, len, 0, t.rxq, t'.rxq);
    }

    method GetCleared(ghost t: Chan, ghost t': Chan) returns (buffer: nat)
      requires Matches(t) && PoolSane(t)
      requires if t.pool.avail < BUFFER_SIZE then t' == t
               else t' == t.(pool := PoolTake(t.pool), mem := t.mem[PoolPtr(t.pool) := ZeroCell()])
      modifies shpool, shm
      ensures Matches(t') && buffer == if t.pool.avail < BUFFER_SIZE then NULL else PoolPtr(t.pool)
    {
      buffer := shpool.GetBuffer(BUFFER_SIZE);
      if buffer != NULL {
        shm.Clear(buffer);
      }
    }

    /** One iteration of the loop in rpmsg_init_vdev that posts the receive buffers. */
    method PostBuffer(ghost t: Chan, ghost t': Chan) returns (status: int)
      requires Matches(t) && PoolSane(t)
      requires if t.pool.avail < BUFFER_SIZE then t' == t else Posted(t, t')
      modifies rvq.Footprint(), shpool, shm
      ensures Matches(t')
      ensures status == if t.pool.avail < BUFFER_SIZE then RPMSG_ERR_NO_BUFF else RPMSG_SUCCESS
    {
      ghost var u := if t.pool.avail < BUFFER_SIZE then t else t.(pool := t'.pool, mem := t'.mem);
      var buffer := GetCleared(t, u);
      if buffer == NULL {
        return RPMSG_ERR_NO_BUFF;
      }
      status := ReturnBuffer(buffer, BUFFER_SIZE, u, t');
    }

    method PostNext(ghost t0: Chan, ghost t: Chan) returns (status: int, ghost t': Chan)
      requires Matches(t) && Along(true, t0, t) && !t.ready && t.filled < t.rxq.n && t.rxq.dpc.DIdle?
      modifies rvq.Footprint(), shpool, shm
      ensures Matches(t') && Along(true, t0, t')
      ensures status == if t.pool.avail < BUFFER_SIZE then RPMSG_ERR_NO_BUFF else RPMSG_SUCCESS
      ensures t.pool.avail < BUFFER_SIZE ==> t' == t
      ensures t.pool.avail >= BUFFER_SIZE ==>
        && t' == t.(rxq := t'.rxq, pool := PoolTake(t.pool), mem := t'.mem, filled := t.filled + 1, spot := t'.spot)
        && t'.rxq.dpc.DIdle? && t'.rxq.n == t.rxq.n
    {
      LookableQueues(t);
      t' := t;
      if t.pool.avail >= BUFFER_SIZE {
        t' := PostCall(t0, t);
      }
      status := PostBuffer(t, t');
    }

    /** The loop of rpmsg_init_vdev that fills the receive queue from the pool. */
    method FillReceiveQueue(ghost t0: Chan, ghost t: Chan) returns (status: int, ghost t': Chan)
      requires Matches(t) && Along(true, t0, t) && !t.ready && t.filled == 0 && t.rxq.dpc.DIdle?
      modifies rvq.Footprint(), shpool, shm
      ensures Matches(t') && Along(true, t0, t')
      ensures status == if t.rxq.n * BUFFER_SIZE <= t.pool.avail then RPMSG_SUCCESS else RPMSG_ERR_NO_BUFF
      ensures !t'.ready && t'.rxq.dpc.DIdle? && t'.txq == t.txq && t'.rxq.n == t.rxq.n
      ensures status == RPMSG_SUCCESS ==> t'.filled == t.rxq.n
      ensures status == RPMSG_SUCCESS ==> t'.pool.avail == t.pool.avail - t.rxq.n * BUFFER_SIZE
      ensures status != RPMSG_SUCCESS ==> t'.pool.avail < BUFFER_SIZE
    {
      t' := t;
      var idx := 0;
      while idx < rvq.ring.n
        invariant idx <= rvq.ring.n == t.rxq.n == t'.rxq.n && t'.filled == idx
        invariant Matches(t') && Along(true, t0, t')
        invariant !t'.ready && t'.rxq.dpc.DIdle? && t'.txq == t.txq
        invariant t'.pool.avail + idx * BUFFER_SIZE == t.pool.avail
      {
        status, t' := PostNext(t0, t');
        if status != RPMSG_SUCCESS {
          return;
        }
        idx := idx + 1;
      }
      status := RPMSG_SUCCESS;
    }

    method SetDriverOk(ghost t: Chan, ghost t': Chan)
      requires Matches(t) && t' == t.(ready := true)
      modifies shm
      ensures Matches(t')
    {
      shm.driverOk := true;
    }

    method DisableSendCallback(ghost t: Chan, ghost t': Chan)
      requires Matches(t) && t' == t.(txq := Next(t.txq, DriverDisarm))
      modifies svq.Footprint()
      ensures Matches(t')
    {
      svq.DisableCb(t.txq);
    }

    /** The master's part of rpmsg_init_vdev: no interrupts for finished sends, then fill the receive
        queue, then set DRIVER_OK. It succeeds if and only if the pool holds a buffer for every entry. */
    method InitVdev(ghost t: Chan) returns (status: int, ghost t': Chan)
      requires Matches(t) && Sound(t) && !t.ready && t.filled == 0 && t.rxq.dpc.DIdle? && t.txq.dpc.DIdle?
      modifies rvq.Footprint(), svq.Footprint(), shpool, shm
      ensures Matches(t') && Along(true, t, t')
      ensures status == if t.rxq.n * BUFFER_SIZE <= t.pool.avail then RPMSG_SUCCESS else RPMSG_ERR_NO_BUFF
      ensures t'.ready <==> status == RPMSG_SUCCESS
      ensures status == RPMSG_SUCCESS ==>
        && t'.filled == t.rxq.n && t'.rxq.dpc.DIdle? && t'.txq == Next(t.txq, DriverDisarm) && t'.txq.dpc.DIdle?
        && t'.pool.avail == t.pool.avail - t.rxq.n * BUFFER_SIZE
    {
      Begin(true, t);
      ghost var t1 := SignalCall(true, t, t, false, DriverDisarm);
      DisableSendCallback(t, t1);
      ghost var u;
      status, u := FillReceiveQueue(t, t1);
      t' := u;
      if status == RPMSG_SUCCESS {
        t' := ReadyCall(t, u);
        SetDriverOk(u, t');
      }
    }

    /** virtqueue_get_buffer on the send queue. */
    method GetSent(ghost t: Chan, ghost t': Chan) returns (buffer: nat, len: nat)
      requires Matches(t) && Lookable(t.txq)
      requires if t.txq.h.recl < t.txq.h.ret then t' == t.(txq := GetCall(t.txq), mTx := t'.mTx, spot := t'.spot,
                                                           dry := t'.dry) else t' == t
      modifies svq.Footprint()
      ensures Matches(t') && svq.notified == old(svq.notified)
      ensures if t.txq.h.recl < t.txq.h.ret then buffer == FrontCookie(t.txq) != NULL &&
        len == DoneAt(t.txq.h, t.txq.h.recl).len
              else buffer == NULL
    {
      buffer, len := GetOne(svq, t.txq, t'.txq);
    }

    /** rpmsg_virtio_shm_pool_get_buffer for a send. */
    method GetFresh(ghost t: Chan, ghost t': Chan) returns (buffer: nat)
      requires Matches(t) && PoolSane(t)
      requires if t.pool.avail < BUFFER_SIZE then Untaken(t, t')
               else t' == t.(pool := PoolTake(t.pool), mem := t.mem[PoolPtr(t.pool) := shm.Load(PoolPtr(t.pool))],
                             mTx := t'.mTx, spot := t'.spot, dry := t'.dry)
      modifies shpool
      ensures Matches(t') && buffer == if t.pool.avail < BUFFER_SIZE then NULL else PoolPtr(t.pool)
    {
      buffer := shpool.GetBuffer(BUFFER_SIZE);
    }

    /** rpmsg_virtio_get_tx_buffer. */
    method GetTxBuffer(ghost t: Chan, ghost t': Chan) returns (buffer: nat, len: nat)
      requires Matches(t) && PoolSane(t) && Lookable(t.txq)
      requires TxTaken(t, t', shm.Load(PoolPtr(t.pool)))
      modifies svq.Footprint(), shpool
      ensures Matches(t') && buffer == TxBuffer(t) && len == BUFFER_SIZE && svq.notified == old(svq.notified)
    {
      buffer, len := GetSent(t, if t.txq.h.recl < t.txq.h.ret then t' else t);
      if buffer == NULL {
        buffer := GetFresh(t, t');
        len := BUFFER_SIZE;
      }
    }

    /** The retry loop of rpmsg_virtio_send_offchannel_raw, which the master leaves in its first round:
        its size limit is never 0, so a waiting send that finds no buffer gives up at once, with the
        error for a message that is too long. */
    method AwaitBuffer(size: nat, wait: bool, ghost t0: Chan, ghost t: Chan)
      returns (err: int, buffer: nat, len: nat, ghost t': Chan)
      requires Matches(t) && Along(true, t0, t) && t.ready && t.txq.dpc.DIdle?
      modifies svq.Footprint(), shpool
      ensures Matches(t') && Along(true, t0, t') && svq.notified == old(svq.notified)
      ensures err ==
        if size > PAYLOAD_MAX then RPMSG_ERR_BUFF_SIZE
        else if t.txq.h.recl < t.txq.h.ret || BUFFER_SIZE <= t.pool.avail then RPMSG_SUCCESS
        else if wait then RPMSG_ERR_BUFF_SIZE else RPMSG_ERR_NO_BUFF
      ensures if err < 0 then Untaken(t, t') else len == BUFFER_SIZE && InHand(t, t', buffer)
    {
      if size > MasterLimit() {
        return RPMSG_ERR_BUFF_SIZE, NULL, 0, t;
      }
      LookableQueues(t);
      TxBufferMeans(t);
      t' := TxNext(t0, t, shm.Load(PoolPtr(t.pool)));
      buffer, len := GetTxBuffer(t, t');
      if buffer != NULL {
        err := RPMSG_SUCCESS;
      } else {
        err := if wait then RPMSG_ERR_BUFF_SIZE else RPMSG_ERR_NO_BUFF;
      }
    }

    method WriteMessage(buffer: nat, m: Msg, ghost t: Chan, ghost t': Chan)
      requires Matches(t) && Written(t, t', buffer, m)
      modifies shm
      ensures Matches(t')
    {
      shm.WriteMessage(buffer, m);
    }

    /** rpmsg_virtio_enqueue_buffer. */
    method EnqueueBuffer(buffer: nat, len: nat, ghost m: Msg, ghost t: Chan, ghost t': Chan) returns (status: int)
      requires Matches(t) && len == BUFFER_SIZE && Enqueued(t, t', buffer, m)
      modifies svq.Footprint()
      ensures Matches(t') && status == VQUEUE_SUCCESS && svq.notified == old(svq.notified)
    {
      status := AddOne(svq, buffer, len, 1, t.txq, t'.txq);
    }

    method KickSend(ghost t0: Chan, ghost t: Chan, ghost t': Chan)
      requires Matches(t) && t' == t.(txq := Next(t.txq, DriverKick)) && Inv(t.txq) && Unkicked(t0.txq, t.txq, ToDevice)
      modifies svq.Footprint()
      ensures Matches(t') && KickedOnce(t0.txq, t'.txq, ToDevice, old(svq.notified), svq.notified)
      ensures t'.txq.h.kickedAvail == t'.txq.h.pub == t.txq.h.pub
    {
      svq.Kick(t.txq);
      KickMeans(t0.txq, t.txq, t'.txq, ToDevice, old(svq.notified), svq.notified);
    }

    method KickReceive(ghost t: Chan, ghost t': Chan)
      requires Matches(t) && t' == t.(rxq := Next(t.rxq, DriverKick))
      modifies rvq.Footprint()
      ensures Matches(t') && rvq.notified == old(rvq.notified) + (if MustNotify(t.rxq, ToDevice) then 1 else 0)
    {
      rvq.Kick(t.rxq);
    }

    /** rpmsg_virtio_send_offchannel_raw. A successful send ends with a kick, which announces this message
        and all that were published before it. */
    method Send(src: nat, dst: nat, data: seq<nat>, wait: bool, ghost t: Chan) returns (ret: int, ghost t': Chan)
      requires Matches(t) && Sound(t) && PoolFits(t) && t.txq.dpc.DIdle?
      modifies svq.Footprint(), shpool, shm
      ensures Matches(t') && Along(true, t, t')
      ensures ret ==
        if !t.ready then RPMSG_ERR_DEV_STATE
        else if |data| > PAYLOAD_MAX then RPMSG_ERR_BUFF_SIZE
        else if t.txq.h.recl < t.txq.h.ret || BUFFER_SIZE <= t.pool.avail then |data|
        else if wait then RPMSG_ERR_BUFF_SIZE else RPMSG_ERR_NO_BUFF
      ensures ret < 0 ==> Untaken(t, t')
      ensures ret >= 0 ==> t'.sentR == t.sentR + [Msg(src, dst, data)] && t'.txq.dpc.DIdle?
      ensures ret >= 0 ==>
        && t'.txq.h.kickedAvail == t'.txq.h.pub == t.txq.h.pub + 1
        && KickedOnce(t.txq, t'.txq, ToDevice, old(svq.notified), svq.notified)
      ensures ret < 0 ==> svq.notified == old(svq.notified)
      ensures ret >= 0 ==> Preferred(t, t')
    {
      Begin(true, t);
      if !shm.driverOk {
        return RPMSG_ERR_DEV_STATE, t;
      }
      var err, buffer, len, u := AwaitBuffer(|data|, wait, t, t);
      if err < 0 {
        return err, u;
      }
      t' := SendIn(buffer, len, Msg(src, dst, data), t, u);
      ret := |data|;
    }

    /** The message goes into the buffer in hand, which is enqueued and announced. */
    method SendIn(buffer: nat, len: nat, m: Msg, ghost t0: Chan, ghost t: Chan) returns (ghost t': Chan)
      requires Matches(t) && Along(true, t0, t) && PoolFits(t) && len == BUFFER_SIZE && |m.data| <= PAYLOAD_MAX
      requires InHand(t0, t, buffer)
      modifies svq.Footprint(), shm
      ensures Matches(t') && Along(true, t0, t')
      ensures t'.sentR == t0.sentR + [m] && t'.txq.dpc.DIdle?
      ensures t'.txq.h.kickedAvail == t'.txq.h.pub == t0.txq.h.pub + 1
      ensures KickedOnce(t0.txq, t'.txq, ToDevice, old(svq.notified), svq.notified)
      ensures t'.pool == t.pool && t'.txq.h.recl == t.txq.h.recl
    {
      ghost var t1, t2, t3 := SendNext(t0, t, buffer, m);
      WriteAndEnqueue(buffer, len, m, t, t1, t2);
      KickSend(t0, t2, t3);
      t' := t3;
    }

    method WriteAndEnqueue(buffer: nat, len: nat, m: Msg, ghost t: Chan, ghost t1: Chan, ghost t2: Chan)
      requires Matches(t) && len == BUFFER_SIZE && Written(t, t1, buffer, m) && Enqueued(t1, t2, buffer, m)
      modifies svq.Footprint(), shm
      ensures Matches(t2) && svq.notified == old(svq.notified)
    {
      WriteMessage(buffer, m, t, t1);
      var status := EnqueueBuffer(buffer, len, m, t1, t2);
    }

    /** rpmsg_virtio_get_rx_buffer. */
    method GetRxBuffer(ghost t: Chan, ghost t': Chan) returns (buffer: nat, len: nat)
      requires Matches(t) && Lookable(t.rxq) && RxTaken(t, t')
      modifies rvq.Footprint()
      ensures Matches(t') && rvq.notified == old(rvq.notified)
      ensures if t.rxq.h.recl < t.rxq.h.ret then buffer == FrontCookie(t.rxq) != NULL && len == BUFFER_SIZE
        else buffer == NULL
    {
      buffer, len := GetOne(rvq, t.rxq, t'.rxq);
    }

    method TakeRxBuffer(ghost t0: Chan, ghost t: Chan) returns (buffer: nat, len: nat, ghost t': Chan)
      requires Matches(t) && Along(true, t0, t) && RxIdle(t)
      modifies rvq.Footprint()
      ensures Matches(t') && Along(true, t0, t') && RxMoved(t, t', buffer, len)
      ensures Unkicked(t.rxq, t'.rxq, ToDevice) && rvq.notified == old(rvq.notified)
    {
      LookableQueues(t);
      t' := RxNext(t0, t);
      buffer, len := GetRxBuffer(t, t');
    }

    /** The message goes to a callback and the buffer back to the remote. */
    method Handle(buffer: nat, len: nat, ghost t0: Chan, ghost t: Chan) returns (m: Msg, ghost t': Chan)
      requires Matches(t) && Along(true, t0, t) && RxFull(t, buffer, len)
      modifies rvq.Footprint()
      ensures Matches(t') && Along(true, t0, t') && RxIdle(t')
      ensures t'.sentM == t.sentM && t'.rxq.h.recl == t.rxq.h.recl && t'.rxq.h.ret == t.rxq.h.ret
      ensures 0 < t.rxq.h.recl <= |t.sentM| && m == t.sentM[t.rxq.h.recl - 1]
      ensures Unkicked(t.rxq, t'.rxq, ToDevice) && rvq.notified == old(rvq.notified)
    {
      ghost var t1, t2 := HandleNext(t0, t, buffer, len);
      m := ReadMsg(shm.Load(buffer));
      var status := ReturnBuffer(buffer, len, t1, t2);
      t' := t2;
    }

    /** The next buffer, or a kick if there is none. */
    method TakeOrKick(ghost t0: Chan, ghost t: Chan) returns (buffer: nat, len: nat, ghost t': Chan)
      requires Matches(t) && Along(true, t0, t) && RxIdle(t) && Unkicked(t0.rxq, t.rxq, ToDevice)
      modifies rvq.Footprint()
      ensures Matches(t') && Along(true, t0, t') && RxMoved(t, t', buffer, len)
      ensures RxKick(t0, t', buffer == NULL, old(rvq.notified), rvq.notified)
    {
      ghost var u;
      buffer, len, u := TakeRxBuffer(t0, t);
      UnkickedMore(t0.rxq, t.rxq, u.rxq, ToDevice);
      t' := u;
      if buffer == NULL {
        t' := SignalCall(true, t0, u, true, DriverKick);
        SoundQueues(u);
        KickReceive(u, t');
        KickMeans(t0.rxq, u.rxq, t'.rxq, ToDevice, old(rvq.notified), rvq.notified);
      }
    }

    /** One round of the loop in rpmsg_virtio_rx_callback. */
    method Round(buffer: nat, len: nat, msgs: seq<Msg>, ghost t0: Chan, ghost t: Chan)
      returns (buffer': nat, len': nat, msgs': seq<Msg>, ghost t': Chan)
      requires Matches(t) && Along(true, t0, t) && RxLoop(t0, t, buffer, len, msgs) && buffer != NULL
      requires Unkicked(t0.rxq, t.rxq, ToDevice)
      modifies rvq.Footprint()
      ensures Matches(t') && Along(true, t0, t') && RxLoop(t0, t', buffer', len', msgs') && |msgs| < |msgs'|
      ensures RxKick(t0, t', buffer' == NULL, old(rvq.notified), rvq.notified)
      ensures buffer' == NULL || t.rxq.h.recl < t'.rxq.h.recl
    {
      StretchOn(t0.sentM, t0.rxq.h.recl, t.rxq.h.recl - 1, msgs);
      var m, u := Handle(buffer, len, t0, t);
      msgs' := msgs + [m];
      UnkickedMore(t0.rxq, t.rxq, u.rxq, ToDevice);
      buffer', len', t' := TakeOrKick(t0, u);
    }

    /** rpmsg_virtio_rx_callback: it delivers, in order and each once, exactly the messages that had
        been returned to the master and not yet taken. If there were any, it ends with one kick, which
        announces all the buffers that it has given back. */
    method RxCallback(ghost t: Chan) returns (msgs: seq<Msg>, ghost t': Chan)
      requires Matches(t) && Sound(t) && RxIdle(t)
      modifies rvq.Footprint()
      ensures Matches(t') && Along(true, t, t') && RxIdle(t')
      ensures t.rxq.h.recl <= t.rxq.h.ret <= |t.sentM| && msgs == t.sentM[t.rxq.h.recl..t.rxq.h.ret]
      ensures t'.sentM == t.sentM && t'.gotM == t.gotM + msgs
      ensures RxKick(t, t', msgs != [], old(rvq.notified), rvq.notified)
    {
      IdleLog(t);
      Begin(true, t);
      msgs := [];
      var buffer, len;
      buffer, len, t' := TakeRxBuffer(t, t);
      while buffer != NULL
        invariant Matches(t') && Along(true, t, t') && RxLoop(t, t', buffer, len, msgs)
        invariant RxKick(t, t', buffer == NULL && msgs != [], old(rvq.notified), rvq.notified)
        decreases buffer != NULL, t.rxq.h.ret - t'.rxq.h.recl
      {
        buffer, len, msgs, t' := Round(buffer, len, msgs, t, t');
      }
      IdleLog(t');
      StretchLog(t.sentM, t.rxq.h.recl, t.rxq.h.ret, msgs);
    }
  }

  /** A queue over fresh, zeroed ring memory is the initial state. */
  method CreateQueue(n: nat, eventIdx: bool) returns (vq: Virtqueue)
    requires RingSize(n)
    ensures fresh(vq.Footprint()) && vq.role.Master? && vq.Matches(Init(n, eventIdx))
  {
    var ring := new Vring(n);
    vq := new Virtqueue(ring, Master, eventIdx);
  }

  /** A master over a fresh pool and two fresh queues holds the start of a run. */
  method CreateMaster(s: Setup) returns (m: RpmsgMaster)
    requires SetupOk(s)
    ensures fresh(m.rvq.Footprint()) && fresh(m.svq.Footprint()) && fresh(m.shpool) && fresh(m.shm)
    ensures m.Matches(Start(s)) && Sound(Start(s))
  {
    var rvq := CreateQueue(s.n0, s.ev0);
    var svq := CreateQueue(s.n1, s.ev1);
    var shpool := new ShmPool(s.base, s.size);
    var shm := new SharedMemory();
    m := new RpmsgMaster(rvq, svq, shpool, shm);
    StartInv(s);
  }

  /** A waiting send that gives up at once: a pool with a buffer for every receive entry and none more is
      used up when the master has started, and the first send, of any message that fits, fails with the
      error for a message that is too long. */
  method WaitingSendGivesUp(s: Setup, src: nat, dst: nat, data: seq<nat>) returns (status: int, ret: int)
    requires SetupOk(s) && s.n0 * BUFFER_SIZE <= s.size < (s.n0 + 1) * BUFFER_SIZE && |data| <= PAYLOAD_MAX
    ensures status == RPMSG_SUCCESS && ret == RPMSG_ERR_BUFF_SIZE
  {
    var m := CreateMaster(s);
    ghost var t, t';
    status, t := m.InitVdev(Start(s));
    UsedUp(s, t);
    ret, t' := m.Send(src, dst, data, true, t);
  }

  lemma UsedUp(s: Setup, t: Chan)
    requires SetupOk(s) && s.n0 * BUFFER_SIZE <= s.size < (s.n0 + 1) * BUFFER_SIZE && Reaches(true, Start(s), t)
    requires t.txq == Next(Start(s).txq, DriverDisarm) && t.pool.avail == s.size - s.n0 * BUFFER_SIZE
    ensures t.txq.h.recl == t.txq.h.ret && t.pool.avail < BUFFER_SIZE && PoolFits(t)
  {
    var ts, es :| OwnRun(true, Start(s), t, ts, es);
    RunConstants(Start(s), ts, es, |es|);
  }
}
