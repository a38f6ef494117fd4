/** The transport over whole runs: FIFO delivery in each direction, rings that are never full,
    constant lengths. */
module RpTheorems {
  import opened Bits
  import opened QueueState
  import opened QueueInvariant
  import opened QueueTheorems
  import opened RpState
  import opened RpInvariant
  import opened RpSteps

  datatype Setup = Setup(n0: nat, n1: nat, ev0: bool, ev1: bool, base: nat, size: nat)

  ghost predicate SetupOk(s: Setup) {
    RingSize(s.n0) && RingSize(s.n1) && 1 <= s.base
  }

  function Start(s: Setup): Chan { TInit(s.n0, s.n1, s.ev0, s.ev1, s.base, s.size) }

  lemma StartInv(s: Setup)
    requires SetupOk(s)
    ensures Sound(Start(s))
  {
    InitInv(s.n0, s.ev0);
    InitInv(s.n1, s.ev1);
  }

  lemma SizeKept(q: Sys, e: Event)
    ensures Next(q, e).n == q.n
  {}

  lemma PoolKept(t: Chan, ev: Ev)
    ensures Local(t, ev).pool.size == t.pool.size
  {}

  lemma ConstantsKept(t: Chan, ev: Ev, t': Chan)
    requires t' == TNext(t, ev)
    ensures t'.rxq.n == t.rxq.n && t'.txq.n == t.txq.n && t'.pool.size == t.pool.size
  {
    PoolKept(t, ev);
    if RxEvent(t, ev).Some? { SizeKept(t.rxq, RxEvent(t, ev).value); }
    if TxEvent(t, ev).Some? { SizeKept(t.txq, TxEvent(t, ev).value); }
  }

  lemma {:induction false} RunConstants(init: Chan, ts: seq<Chan>, es: seq<Ev>, i: nat)
    requires IsTRun(init, ts, es) && i < |ts|
    ensures ts[i].rxq.n == init.rxq.n && ts[i].txq.n == init.txq.n && ts[i].pool.size == init.pool.size
  {
    if i > 0 {
      RunConstants(init, ts, es, i - 1);
      assert TStepAt(ts, es, i - 1);
      ConstantsKept(ts[i - 1], es[i - 1], ts[i]);
    }
  }

  /** The event is no send on a full ring. */
  ghost predicate HasRoom(t: Chan, ev: Ev) { ev.MSend? ==> 1 <= t.txq.drv.freeCnt }

  ghost predicate AllRoom(ts: seq<Chan>, es: seq<Ev>, i: nat)
    requires i < |ts| == |es| + 1
  {
    forall k: nat :: k < i ==> HasRoom(ts[k], es[k])
  }

  /** For every pool size: as long as no send has met a full ring, every state of a run is good. */
  lemma {:induction false} RoomyRunInv(init: Chan, ts: seq<Chan>, es: seq<Ev>, i: nat)
    requires Sound(init) && IsTRun(init, ts, es) && i < |ts| && AllRoom(ts, es, i)
    ensures Sound(ts[i])
  {
    if i > 0 {
      RoomyRunInv(init, ts, es, i - 1);
      assert TStepAt(ts, es, i - 1) && HasRoom(ts[i - 1], es[i - 1]);
      TStep(ts[i - 1], es[i - 1], ts[i]);
    }
  }

  lemma FittingRoom(init: Chan, ts: seq<Chan>, es: seq<Ev>, k: nat)
    requires IsTRun(init, ts, es) && k < |es| && Sound(ts[k]) && PoolFits(ts[k])
    ensures HasRoom(ts[k], es[k])
  {
    assert TStepAt(ts, es, k);
    RingsNeverFull(ts[k], es[k]);
  }

  /** With a fitting pool no send meets a full ring. */
  lemma {:induction false} FittingRun(init: Chan, ts: seq<Chan>, es: seq<Ev>, i: nat)
    requires Sound(init) && PoolFits(init) && IsTRun(init, ts, es) && i < |ts|
    ensures AllRoom(ts, es, i)
  {
    if i > 0 {
      FittingRun(init, ts, es, i - 1);
      RoomyRunInv(init, ts, es, i - 1);
      RunConstants(init, ts, es, i - 1);
      FittingRoom(init, ts, es, i - 1);
    }
  }

  /** Every state of every run of a fitting setup satisfies the invariant. */
  lemma RunStateInv(s: Setup, ts: seq<Chan>, es: seq<Ev>, i: nat)
    requires SetupOk(s) && NoLarger(s.size, s.n0, s.n1) && IsTRun(Start(s), ts, es) && i < |ts|
    ensures Sound(ts[i]) && PoolFits(ts[i])
  {
    StartInv(s);
    FittingRun(Start(s), ts, es, i);
    RoomyRunInv(Start(s), ts, es, i);
    RunConstants(Start(s), ts, es, i);
  }

  /** For every pool size, every interleaving and each direction: until a send meets a full ring, the
      messages seen by the receive loop are a prefix of the messages enqueued by the sender. */
  lemma FifoUntilFull(s: Setup, ts: seq<Chan>, es: seq<Ev>, i: nat)
    requires SetupOk(s) && IsTRun(Start(s), ts, es) && i < |ts| && AllRoom(ts, es, i)
    ensures ts[i].gotR <= ts[i].sentR && ts[i].gotM <= ts[i].sentM
  {
    StartInv(s);
    RoomyRunInv(Start(s), ts, es, i);
    Open(ts[i]);
  }

  /** For every interleaving and in each direction, the messages seen by the receive loop are a
      prefix of the messages enqueued by the sender: nothing lost, duplicated, reordered or altered. */
  lemma FifoDelivery(s: Setup, ts: seq<Chan>, es: seq<Ev>, i: nat)
    requires SetupOk(s) && NoLarger(s.size, s.n0, s.n1) && IsTRun(Start(s), ts, es) && i < |ts|
    ensures ts[i].gotR <= ts[i].sentR && ts[i].gotM <= ts[i].sentM
  {
    RunStateInv(s, ts, es, i);
    Open(ts[i]);
  }

  /** Once a queue is drained and the last message has been looked at, everything has arrived. */
  lemma DrainedMeansDelivered(s: Setup, ts: seq<Chan>, es: seq<Ev>, i: nat)
    requires SetupOk(s) && NoLarger(s.size, s.n0, s.n1) && IsTRun(Start(s), ts, es) && i < |ts|
    ensures var t := ts[i];
      t.txq.dpc.DIdle? && t.txq.dev.availCons == t.txq.ring.availIdx && (t.rRx.Got? ==> t.rRx.seen) ==>
        t.gotR == t.sentR
    ensures var t := ts[i];
      t.rxq.vpc.VIdle? && t.rxq.drv.usedCons == t.rxq.ring.usedIdx && (t.mRx.Got? ==> t.mRx.seen) ==> t.gotM == t.sentM
  {
    RunStateInv(s, ts, es, i);
    Open(ts[i]);
    IndicesExact(ts[i].rxq);
    IndicesExact(ts[i].txq);
  }

  // ---- Buffers ----

  /** Different pool buffers do not overlap. */
  lemma BuffersApart(t: Chan, b: nat, c: nat)
    requires Sound(t) && b in t.spot && c in t.spot && b < c
    ensures t.pool.base <= b && b + BUFFER_SIZE <= c && c + BUFFER_SIZE <= t.pool.base + t.pool.size
  {
    Handed(t, b);
    Handed(t, c);
    StepsApart(b - t.pool.base, c - t.pool.base);
  }

  lemma Handed(t: Chan, b: nat)
    requires Sound(t) && b in t.spot
    ensures InPool(t.pool, b) && t.pool.avail <= t.pool.size
  {
    Open(t);
  }

  lemma StepsApart(x: nat, y: nat)
    requires x % BUFFER_SIZE == 0 && y % BUFFER_SIZE == 0 && x < y
    ensures x + BUFFER_SIZE <= y
  {}

  // ---- Lengths ----

  /** _rpmsg_virtio_get_buffer_size on each side. */
  function MasterLimit(): nat { BUFFER_SIZE - HEADER_SIZE }

  function RemoteLimit(t: Chan): nat {
    var q := t.rxq;
    var len := if q.dev.availCons == q.ring.availIdx then 0
               else At(q.ring.desc, NextAvail(q.ring, q.dev), NO_DESC).len;
    if len < HEADER_SIZE then 0 else len - HEADER_SIZE
  }

  /** Through any recirculation every descriptor and every used element keeps the full buffer size,
      so the remote's computed limit is 0 without a buffer and otherwise the master's own limit. */
  lemma LengthsConstant(t: Chan)
    requires Sound(t)
    ensures forall a: nat :: Live(t.rxq.h, a) ==>
      |t.rxq.h.added[a].idxs| == 1 && At(t.rxq.ring.desc, t.rxq.h.added[a].idxs[0], NO_DESC).len == BUFFER_SIZE
    ensures forall a: nat :: Live(t.txq.h, a) ==>
      |t.txq.h.added[a].idxs| == 1 && At(t.txq.ring.desc, t.txq.h.added[a].idxs[0], NO_DESC).len == BUFFER_SIZE
    ensures forall k: nat :: k < |t.rxq.h.lens| ==> t.rxq.h.lens[k] == BUFFER_SIZE
    ensures forall k: nat :: k < |t.txq.h.lens| ==> t.txq.h.lens[k] == BUFFER_SIZE
    ensures RemoteLimit(t) == if Abs(t.rxq).offered == [] then 0 else MasterLimit()
  {
    Open(t);
    SingleLen(t.rxq, 0);
    SingleLen(t.txq, 1);
    DeviceReadsFront(t.rxq);
    if Abs(t.rxq).offered != [] {
      Window(t.rxq);
      assert Single(t.rxq.h.added[t.rxq.h.taken], 0);
    }
  }

  /** Every buffer that the master sends is for the remote to read only and every receive buffer is for it
      to write, and none is chained: in the numbers of the VirtIO standard, flags 0 and 2. */
  lemma FlagsConstant(t: Chan)
    requires Sound(t)
    ensures forall a: nat :: Live(t.txq.h, a) ==>
      |t.txq.h.added[a].idxs| == 1 && At(t.txq.ring.desc, t.txq.h.added[a].idxs[0], NO_DESC).flags == 0
    ensures forall a: nat :: Live(t.rxq.h, a) ==>
      |t.rxq.h.added[a].idxs| == 1 && At(t.rxq.ring.desc, t.rxq.h.added[a].idxs[0], NO_DESC).flags == 2
  {
    Open(t);
    SingleFlags(t.txq, 1, 0);
    SingleFlags(t.rxq, 0, 2);
  }

  lemma SingleFlags(q: Sys, readable: nat, flags: bv16)
    requires Inv(q) && Singles(q.h, readable) && (readable, flags) in {(1, 0), (0, 2)}
    ensures forall a: nat :: Live(q.h, a) ==>
      |q.h.added[a].idxs| == 1 && At(q.ring.desc, q.h.added[a].idxs[0], NO_DESC).flags == flags
  {
    forall a: nat | Live(q.h, a)
      ensures |q.h.added[a].idxs| == 1 && At(q.ring.desc, q.h.added[a].idxs[0], NO_DESC).flags == flags
    {
      assert LinkOk(q.ring.desc, q.h.added[a], 0) && Single(q.h.added[a], readable);
      FlagBits(0, 1, readable);
      OnlyFlags(q.ring.desc[q.h.added[a].idxs[0]].flags, readable);
    }
  }

  lemma OnlyFlags(flags: bv16, readable: nat)
    requires FlagsOf(flags, 0, 1, readable)
    ensures flags == if readable == 0 then 2 else 0
  {}

  /** The same in every state of every run. */
  lemma FlagsInRuns(s: Setup, ts: seq<Chan>, es: seq<Ev>, i: nat, a: nat)
    requires SetupOk(s) && NoLarger(s.size, s.n0, s.n1) && IsTRun(Start(s), ts, es) && i < |ts|
    ensures Live(ts[i].txq.h, a) ==>
      At(ts[i].txq.ring.desc, At(ts[i].txq.h.added[a].idxs, 0, CHAIN_END), NO_DESC).flags == 0
    ensures Live(ts[i].rxq.h, a) ==>
      At(ts[i].rxq.ring.desc, At(ts[i].rxq.h.added[a].idxs, 0, CHAIN_END), NO_DESC).flags == 2
  {
    RunStateInv(s, ts, es, i);
    FlagsConstant(ts[i]);
  }

  lemma SingleLen(q: Sys, readable: nat)
    requires Inv(q) && Singles(q.h, readable)
    ensures forall a: nat :: Live(q.h, a) ==>
      |q.h.added[a].idxs| == 1 && At(q.ring.desc, q.h.added[a].idxs[0], NO_DESC).len == BUFFER_SIZE
  {
    forall a: nat | Live(q.h, a)
      ensures |q.h.added[a].idxs| == 1 && At(q.ring.desc, q.h.added[a].idxs[0], NO_DESC).len == BUFFER_SIZE
    {
      assert LinkOk(q.ring.desc, q.h.added[a], 0) && Single(q.h.added[a], readable);
    }
  }

  /** The size test of rpmsg_virtio_send_offchannel_raw lets the size through. */
  predicate PassesCheck(limit: nat, size: nat) { limit == 0 || size <= limit }

  /** On the master the test always keeps header and payload inside a buffer. On the remote it does
      so exactly if a buffer was on offer when the test read the ring: with none it lets any size
      through, although the buffer is fetched by a later, separate read. */
  lemma SizeCheckExact(t: Chan)
    requires Sound(t)
    ensures forall size: nat :: PassesCheck(MasterLimit(), size) <==> HEADER_SIZE + size <= BUFFER_SIZE
    ensures (forall size: nat :: PassesCheck(RemoteLimit(t), size) ==> HEADER_SIZE + size <= BUFFER_SIZE)
      <==> Abs(t.rxq).offered != []
  {
    LengthsConstant(t);
    if Abs(t.rxq).offered == [] {
      assert PassesCheck(RemoteLimit(t), BUFFER_SIZE);
    }
  }

  // ---- Rings are never full, exactly if the pool is no larger than the rings ----

  /** Some run reaches a state in which a send is about to enqueue on a full ring. */
  ghost predicate Overflows(s: Setup) {
    exists ts, es, buf :: IsTRun(Start(s), ts, es) && FullSend(ts[|es|], buf)
  }

  predicate FullSend(t: Chan, buf: nat) {
    TEnabled(t, MSend(buf)) && t.txq.drv.freeCnt == 0
  }

  lemma NeverFullExactly(s: Setup)
    requires SetupOk(s)
    ensures !Overflows(s) <==> NoLarger(s.size, s.n0, s.n1)
  {
    if NoLarger(s.size, s.n0, s.n1) {
      forall ts, es, buf | IsTRun(Start(s), ts, es)
        ensures !FullSend(ts[|es|], buf)
      {
        RunStateInv(s, ts, es, |es|);
        if TEnabled(ts[|es|], MSend(buf)) { RingsNeverFull(ts[|es|], MSend(buf)); }
      }
    } else {
      var ts, es, buf := FillBothRings(s);
      assert IsTRun(Start(s), ts, es) && FullSend(ts[|es|], buf);
    }
  }

  lemma Extend(init: Chan, ts: seq<Chan>, es: seq<Ev>, ev: Ev) returns (ts': seq<Chan>, es': seq<Ev>)
    requires IsTRun(init, ts, es) && TEnabled(ts[|es|], ev)
    ensures IsTRun(init, ts', es') && es' == es + [ev] && ts'[|es'|] == TNext(ts[|es|], ev)
  {
    ts', es' := ts + [TNext(ts[|es|], ev)], es + [ev];
    forall i: nat | i < |es'| ensures TStepAt(ts', es', i) {
      if i < |es| { assert TStepAt(ts, es, i); }
    }
  }

  /** The master idle with k receive buffers posted and nothing sent. */
  ghost predicate PostedK(s: Setup, t: Chan, k: nat) {
    && t.rxq.n == s.n0 && t.txq.n == s.n1 && t.pool.size == s.size
    && t.filled == k && !t.ready && t.rxq.dpc.DIdle? && t.txq.dpc.DIdle? && t.txq.h.recl == t.txq.h.ret == 0 &&
      |t.txq.h.added| == 0
    && t.mTx.Keys == {}
  }

  /** All receive buffers posted, j messages sent, none consumed, and these buffers in senders' hands. */
  ghost predicate SentJ(s: Setup, t: Chan, j: nat, hands: set<nat>) {
    && t.rxq.n == s.n0 && t.txq.n == s.n1 && t.pool.size == s.size
    && t.filled == s.n0 && t.ready && t.txq.h.recl == t.txq.h.ret == 0 && |t.txq.h.added| == j
    && t.mTx.Keys == hands
  }

  /** With so large a pool there is always one more buffer to take. */
  lemma PoolHasMore(s: Setup, t: Chan)
    requires Sound(t) && !NoLarger(s.size, s.n0, s.n1)
    requires t.rxq.n == s.n0 && t.txq.n == s.n1 && t.pool.size == s.size
    requires t.txq.h.recl == 0 && |t.txq.h.added| <= s.n1 && |t.mTx| == 0 && t.filled <= s.n0
    ensures BUFFER_SIZE <= t.pool.avail
  {
    Open(t);
  }

  lemma PostShape(s: Setup, t: Chan, k: nat)
    requires PostedK(s, t, k) && k < s.n0 && BUFFER_SIZE <= t.pool.avail
    ensures TEnabled(t, MPost)
    ensures var t' := TNext(t, MPost); TEnabled(t', MRxBump) && PostedK(s, TNext(t', MRxBump), k + 1)
  {}

  lemma {:induction false} PostMany(s: Setup, k: nat) returns (ts: seq<Chan>, es: seq<Ev>)
    requires SetupOk(s) && !NoLarger(s.size, s.n0, s.n1) && k <= s.n0
    ensures IsTRun(Start(s), ts, es) && Sound(ts[|es|]) && PostedK(s, ts[|es|], k)
  {
    if k == 0 {
      ts, es := [Start(s)], [];
      StartInv(s);
    } else {
      ts, es := PostMany(s, k - 1);
      ts, es := PostOne(s, ts, es, k - 1);
    }
  }

  lemma PostOne(s: Setup, ts: seq<Chan>, es: seq<Ev>, k: nat) returns (ts': seq<Chan>, es': seq<Ev>)
    requires !NoLarger(s.size, s.n0, s.n1) && IsTRun(Start(s), ts, es) && Sound(ts[|es|]) &&
      PostedK(s, ts[|es|], k) && k < s.n0
    ensures IsTRun(Start(s), ts', es') && Sound(ts'[|es'|]) && PostedK(s, ts'[|es'|], k + 1)
  {
    PoolHasMore(s, ts[|es|]);
    PostShape(s, ts[|es|], k);
    ts', es' := Apply(Start(s), ts, es, MPost);
    ts', es' := Apply(Start(s), ts', es', MRxBump);
  }

  /** One more event, keeping the invariant. */
  lemma Apply(init: Chan, ts: seq<Chan>, es: seq<Ev>, ev: Ev) returns (ts': seq<Chan>, es': seq<Ev>)
    requires IsTRun(init, ts, es) && Sound(ts[|es|]) && TEnabled(ts[|es|], ev)
    requires ev.MSend? ==> 1 <= ts[|es|].txq.drv.freeCnt
    ensures IsTRun(init, ts', es') && ts'[|es'|] == TNext(ts[|es|], ev) && Sound(ts'[|es'|])
  {
    ts', es' := Extend(init, ts, es, ev);
    TStep(ts[|es|], ev, ts'[|es'|]);
  }

  lemma ReadyShape(s: Setup, t: Chan)
    requires PostedK(s, t, s.n0)
    ensures TEnabled(t, MReady) && SentJ(s, TNext(t, MReady), 0, {}) && TNext(t, MReady).txq.dpc.DIdle?
  {}

  lemma LookShape(s: Setup, t: Chan, j: nat)
    requires Sound(t) && SentJ(s, t, j, {}) && t.txq.dpc.DIdle?
    ensures TEnabled(t, MTxLook)
    ensures var t' := TNext(t, MTxLook); SentJ(s, t', j, {}) && t'.txq.dpc.DIdle? && t'.dry && t'.pool == t.pool
  {
    Open(t);
    IndicesExact(t.txq);
  }

  lemma PrepareShape(s: Setup, t: Chan, j: nat, m: Msg)
    requires SentJ(s, t, j, {}) && t.txq.dpc.DIdle? && t.dry && BUFFER_SIZE <= t.pool.avail && |m.data| == 0
    ensures TEnabled(t, MTxPool(ZeroCell()))
    ensures var t1, buf := TNext(t, MTxPool(ZeroCell())), PoolPtr(t.pool);
      && TEnabled(t1, MHeader(buf, m))
      && var t2 := TNext(t1, MHeader(buf, m));
      && TEnabled(t2, MPayload(buf))
      && var t3 := TNext(t2, MPayload(buf));
      && SentJ(s, t3, j, {buf}) && t3.txq.dpc.DIdle? && t3.mTx[buf].tx.Filled?
  {
    var t1, buf := TNext(t, MTxPool(ZeroCell())), PoolPtr(t.pool);
    assert t1.mTx.Keys == {buf};
    var t2 := TNext(t1, MHeader(buf, m));
    assert t2.mTx.Keys == {buf};
    var t3 := TNext(t2, MPayload(buf));
    assert t3.mTx.Keys == {buf};
  }

  /** From an idle master: look for a finished buffer, take a pool buffer and write a message into it. */
  lemma PrepareOne(s: Setup, ts: seq<Chan>, es: seq<Ev>, j: nat) returns (ts': seq<Chan>, es': seq<Ev>, buf: nat)
    requires IsTRun(Start(s), ts, es) && Sound(ts[|es|]) && j <= s.n1 && !NoLarger(s.size, s.n0, s.n1)
    requires SentJ(s, ts[|es|], j, {}) && ts[|es|].txq.dpc.DIdle?
    ensures IsTRun(Start(s), ts', es') && Sound(ts'[|es'|])
    ensures SentJ(s, ts'[|es'|], j, {buf}) && ts'[|es'|].txq.dpc.DIdle? && ts'[|es'|].mTx[buf].tx.Filled?
  {
    LookShape(s, ts[|es|], j);
    ts', es' := Apply(Start(s), ts, es, MTxLook);
    var m := Msg(0, 0, []);
    PoolHasMore(s, ts'[|es'|]);
    PrepareShape(s, ts'[|es'|], j, m);
    buf := PoolPtr(ts'[|es'|].pool);
    ts', es' := Apply(Start(s), ts', es', MTxPool(ZeroCell()));
    ts', es' := Apply(Start(s), ts', es', MHeader(buf, m));
    ts', es' := Apply(Start(s), ts', es', MPayload(buf));
  }

  lemma SendShape(s: Setup, t: Chan, j: nat, buf: nat)
    requires SentJ(s, t, j, {buf}) && t.txq.dpc.DIdle? && t.mTx[buf].tx.Filled?
    ensures TEnabled(t, MSend(buf))
    ensures var t' := TNext(t, MSend(buf));
      TEnabled(t', MTxBump) && SentJ(s, TNext(t', MTxBump), j + 1, {}) && TNext(t', MTxBump).txq.dpc.DIdle?
  {
    assert TNext(t, MSend(buf)).mTx.Keys == {};
  }

  lemma RoomAfter(s: Setup, t: Chan, j: nat, buf: nat)
    requires Sound(t) && SentJ(s, t, j, {buf}) && j < s.n1
    ensures 1 <= t.txq.drv.freeCnt
  {
    Open(t);
  }

  lemma {:induction false} SendMany(s: Setup, j: nat) returns (ts: seq<Chan>, es: seq<Ev>)
    requires SetupOk(s) && !NoLarger(s.size, s.n0, s.n1) && j <= s.n1
    ensures IsTRun(Start(s), ts, es) && Sound(ts[|es|])
    ensures SentJ(s, ts[|es|], j, {}) && ts[|es|].txq.dpc.DIdle?
  {
    if j == 0 {
      ts, es := PostMany(s, s.n0);
      ReadyShape(s, ts[|es|]);
      ts, es := Apply(Start(s), ts, es, MReady);
    } else {
      var buf;
      ts, es := SendMany(s, j - 1);
      ts, es, buf := PrepareOne(s, ts, es, j - 1);
      SendShape(s, ts[|es|], j - 1, buf);
      RoomAfter(s, ts[|es|], j - 1, buf);
      ts, es := Apply(Start(s), ts, es, MSend(buf));
      ts, es := Apply(Start(s), ts, es, MTxBump);
    }
  }

  lemma FillBothRings(s: Setup) returns (ts: seq<Chan>, es: seq<Ev>, buf: nat)
    requires SetupOk(s) && !NoLarger(s.size, s.n0, s.n1)
    ensures IsTRun(Start(s), ts, es) && FullSend(ts[|es|], buf)
  {
    ts, es := SendMany(s, s.n1);
    ts, es, buf := PrepareOne(s, ts, es, s.n1);
    RingIsFull(s, ts[|es|], buf);
  }

  lemma RingIsFull(s: Setup, t: Chan, buf: nat)
    requires Sound(t) && SentJ(s, t, s.n1, {buf}) && t.txq.dpc.DIdle? && t.mTx[buf].tx.Filled?
    ensures FullSend(t, buf)
  {
    Open(t);
  }
}
