/** The RPMsg transport over two virtqueues as a state machine: the shared buffer pool, the send
    path and the receive loop of both processors, at the granularity of the virtqueue steps. */
module RpState {
  import opened Wrappers
  import opened Bits
  import opened QueueState

  const BUFFER_SIZE: nat := 512
  const HEADER_SIZE: nat := 16
  const PAYLOAD_MAX: nat := 496

  datatype Msg = Msg(src: nat, dst: nat, data: seq<nat>)

  /** Contents of one shared buffer: the header fields the code sets and the payload area. */
  datatype Cell = Cell(src: nat, dst: nat, len: nat, data: seq<nat>)

  function ZeroCell(): (c: Cell)
    ensures c.src == c.dst == c.len == 0 && |c.data| == PAYLOAD_MAX && forall i :: 0 <= i < |c.data| ==> c.data[i] == 0
  {
    Cell(0, 0, 0, seq(PAYLOAD_MAX, i => 0))
  }

  function WriteHeader(c: Cell, m: Msg): Cell {
    c.(src := m.src, dst := m.dst, len := U16(|m.data|))
  }

  function WritePayload(c: Cell, data: seq<nat>): Cell {
    c.(data := if |data| <= |c.data| then data + c.data[|data|..] else c.data)
  }

  /** What a receive callback is given. */
  function ReadMsg(c: Cell): Msg {
    Msg(c.src, c.dst, if c.len <= |c.data| then c.data[..c.len] else c.data)
  }

  /** The pool hands out buffers in address order and never takes one back. */
  datatype Pool = Pool(base: nat, size: nat, avail: nat)

  function PoolPtr(p: Pool): nat {
    if p.avail <= p.size then p.base + p.size - p.avail else p.base
  }

  function PoolTake(p: Pool): Pool {
    p.(avail := if BUFFER_SIZE <= p.avail then p.avail - BUFFER_SIZE else p.avail)
  }

  /** How far a sender has got with the buffer it holds. */
  datatype Tx = Blank | Headed(msg: Msg) | Filled(msg: Msg)

  datatype Hand = Hand(buf: nat, len: nat, tx: Tx)

  /** The receive loop's current buffer; key is the descriptor head on the remote side. */
  datatype RxHand = NoRx | Got(buf: nat, key: nat, len: nat, seen: bool)

  datatype Spot = MasterTx | MasterRx | RxQ(chain: nat) | TxQ(chain: nat)

  datatype Chan = Chan(
    rxq: Sys,                 // the master's receive queue, the remote's send queue
    txq: Sys,                 // the master's send queue, the remote's receive queue
    pool: Pool,
    mem: map<nat, Cell>,
    filled: nat, ready: bool, // buffers posted by rpmsg_init_vdev; DRIVER_OK
    dry: bool,                // the master has just found no finished send buffer
    mTx: map<nat, Hand>, mRx: RxHand,
    rTx: map<nat, Hand>, rRx: RxHand,
    sentR: seq<Msg>, gotR: seq<Msg>, // master to remote: enqueued, and seen by the receive loop
    sentM: seq<Msg>, gotM: seq<Msg>, // remote to master
    spot: map<nat, Spot>)

  datatype Ev =
    | MPost | MRxBump | MReady
    | MTxLook | MTxReclaim | MTxPool(junk: Cell)
    | MHeader(buf: nat, msg: Msg) | MPayload(buf: nat) | MSend(buf: nat) | MTxBump
    | MRxLook | MRxReclaim | MRead | MReturn
    | RTxLook | RTxTake | RHeader(head: nat, msg: Msg) | RPayload(head: nat) | RSend(head: nat) | RTxBump
    | RRxLook | RRxTake | RRead | RReturn | RRxBump
    | Signal(onRx: bool, e: Event)

  predicate IsSignal(e: Event) {
    || e.DriverKick? || e.DriverArm? || e.DriverCheck? || e.DriverDisarm?
    || e.DeviceKick? || e.DeviceArm? || e.DeviceCheck? || e.DeviceDisarm?
  }

  const NO_HAND: Hand := Hand(0, 0, Blank)

  function HandAt(m: map<nat, Hand>, k: nat): Hand { if k in m then m[k] else NO_HAND }

  /** The virtqueue step an event takes on the master's receive queue. */
  function RxEvent(t: Chan, ev: Ev): Maybe<Event> {
    match ev
    case MPost => Some(AddWrite([Buf(PoolPtr(t.pool), BUFFER_SIZE)], 0, PoolPtr(t.pool)))
    case MReturn => if t.mRx.Got? then Some(AddWrite([Buf(t.mRx.buf, t.mRx.len)], 0, t.mRx.buf)) else None
    case MRxBump => Some(AddBump)
    case MRxLook => Some(UsedLook)
    case MRxReclaim => Some(Reclaim)
    case RTxLook => Some(AvailLook)
    case RTxTake => Some(Take)
    case RSend(head) => Some(RetWrite(head, HandAt(t.rTx, head).len))
    case RTxBump => Some(RetBump)
    case Signal(onRx, e) => if onRx then Some(e) else None
    case _ => None
  }

  /** The virtqueue step an event takes on the master's send queue. */
  function TxEvent(t: Chan, ev: Ev): Maybe<Event> {
    match ev
    case MSend(buf) => Some(AddWrite([Buf(buf, HandAt(t.mTx, buf).len)], 1, buf))
    case MTxBump => Some(AddBump)
    case MTxLook => Some(UsedLook)
    case MTxReclaim => Some(Reclaim)
    case RRxLook => Some(AvailLook)
    case RRxTake => Some(Take)
    case RReturn => if t.rRx.Got? then Some(RetWrite(t.rRx.key, t.rRx.len)) else None
    case RRxBump => Some(RetBump)
    case Signal(onRx, e) => if onRx then None else Some(e)
    case _ => None
  }

  /** What the code checks, and its program counters. No send or return tests for a full ring:
      virtqueue_add_buffer does not, and `RingsNeverFull` shows that it need not. */
  predicate TEnabled(t: Chan, ev: Ev) {
    match ev
    case MPost => !t.ready && t.rxq.dpc.DIdle? && t.filled < t.rxq.n && BUFFER_SIZE <= t.pool.avail
    case MRxBump => t.rxq.dpc.Publishing?
    case MReady => !t.ready && t.rxq.dpc.DIdle? && t.filled == t.rxq.n
    case MTxLook => t.ready && t.txq.dpc.DIdle?
    case MTxReclaim => t.txq.dpc.Reclaiming?
    case MTxPool(junk) => t.ready && t.dry && t.txq.dpc.DIdle? && BUFFER_SIZE <= t.pool.avail &&
      |junk.data| == PAYLOAD_MAX
    case MHeader(buf, msg) => buf in t.mTx && t.mTx[buf].tx.Blank? && |msg.data| <= PAYLOAD_MAX
    case MPayload(buf) => buf in t.mTx && t.mTx[buf].tx.Headed?
    case MSend(buf) => buf in t.mTx && t.mTx[buf].tx.Filled? && t.txq.dpc.DIdle?
    case MTxBump => t.txq.dpc.Publishing?
    case MRxLook => t.ready && t.mRx.NoRx? && t.rxq.dpc.DIdle?
    case MRxReclaim => t.mRx.NoRx? && t.rxq.dpc.Reclaiming?
    case MRead => t.mRx.Got? && !t.mRx.seen
    case MReturn => t.mRx.Got? && t.mRx.seen && t.rxq.dpc.DIdle?
    case RTxLook => t.ready && t.rxq.vpc.VIdle?
    case RTxTake => t.rxq.vpc.Taking?
    case RHeader(head, msg) => head in t.rTx && t.rTx[head].tx.Blank? && |msg.data| <= PAYLOAD_MAX
    case RPayload(head) => head in t.rTx && t.rTx[head].tx.Headed?
    case RSend(head) => head in t.rTx && t.rTx[head].tx.Filled? && t.rxq.vpc.VIdle?
    case RTxBump => t.rxq.vpc.Returning?
    case RRxLook => t.ready && t.rRx.NoRx? && t.txq.vpc.VIdle?
    case RRxTake => t.rRx.NoRx? && t.txq.vpc.Taking?
    case RRead => t.rRx.Got? && !t.rRx.seen
    case RReturn => t.rRx.Got? && t.rRx.seen && t.txq.vpc.VIdle?
    case RRxBump => t.txq.vpc.Returning?
    case Signal(onRx, e) => IsSignal(e) && Enabled(if onRx then t.rxq else t.txq, e)
  }

  function Queues(t: Chan, ev: Ev): Chan {
    t.(rxq := match RxEvent(t, ev) case Some(e) => Next(t.rxq, e) case None => t.rxq,
       txq := match TxEvent(t, ev) case Some(e) => Next(t.txq, e) case None => t.txq)
  }

  function CellAt(t: Chan, buf: nat): Cell { if buf in t.mem then t.mem[buf] else ZeroCell() }

  /** The effect of an event outside the two queues. */
  function Local(t: Chan, ev: Ev): Chan {
    match ev
    case MPost =>
      var p := PoolPtr(t.pool);
      t.(pool := PoolTake(t.pool), mem := t.mem[p := ZeroCell()], filled := t.filled + 1,
         spot := t.spot[p := RxQ(|t.rxq.h.added|)])
    case MReady => t.(ready := true)
    case MTxLook => t.(dry := t.txq.drv.usedCons == t.txq.ring.usedIdx)
    case MTxReclaim =>
      var b := UsedCookie(t.txq.ring, t.txq.drv);
      t.(mTx := t.mTx[b := Hand(b, NextUsed(t.txq.ring, t.txq.drv).len, Blank)], spot := t.spot[b := MasterTx])
    case MTxPool(junk) =>
      var p := PoolPtr(t.pool);
      t.(pool := PoolTake(t.pool), mem := t.mem[p := junk], dry := false,
         mTx := t.mTx[p := Hand(p, BUFFER_SIZE, Blank)], spot := t.spot[p := MasterTx])
    case MHeader(buf, msg) =>
      t.(mem := t.mem[buf := WriteHeader(CellAt(t, buf), msg)],
         mTx := t.mTx[buf := HandAt(t.mTx, buf).(tx := Headed(msg))])
    case MPayload(buf) =>
      var h := HandAt(t.mTx, buf);
      if h.tx.Headed? then
        t.(mem := t.mem[buf := WritePayload(CellAt(t, buf), h.tx.msg.data)],
           mTx := t.mTx[buf := h.(tx := Filled(h.tx.msg))])
      else t
    case MSend(buf) =>
      var h := HandAt(t.mTx, buf);
      t.(mTx := t.mTx - {buf}, spot := t.spot[buf := TxQ(|t.txq.h.added|)], dry := false,
         sentR := t.sentR + [if h.tx.Filled? then h.tx.msg else ReadMsg(CellAt(t, buf))])
    case MRxReclaim =>
      var b := UsedCookie(t.rxq.ring, t.rxq.drv);
      t.(mRx := Got(b, 0, NextUsed(t.rxq.ring, t.rxq.drv).len, false), spot := t.spot[b := MasterRx])
    case MRead =>
      if t.mRx.Got? then t.(gotM := t.gotM + [ReadMsg(CellAt(t, t.mRx.buf))], mRx := t.mRx.(seen := true)) else t
    case MReturn =>
      if t.mRx.Got? then t.(mRx := NoRx, spot := t.spot[t.mRx.buf := RxQ(|t.rxq.h.added|)]) else t
    case RTxTake =>
      var head := NextAvail(t.rxq.ring, t.rxq.dev);
      var d := At(t.rxq.ring.desc, head, NO_DESC);
      t.(rTx := t.rTx[head := Hand(d.addr, d.len, Blank)])
    case RHeader(head, msg) =>
      var h := HandAt(t.rTx, head);
      t.(mem := t.mem[h.buf := WriteHeader(CellAt(t, h.buf), msg)], rTx := t.rTx[head := h.(tx := Headed(msg))])
    case RPayload(head) =>
      var h := HandAt(t.rTx, head);
      if h.tx.Headed? then
        t.(mem := t.mem[h.buf := WritePayload(CellAt(t, h.buf), h.tx.msg.data)],
           rTx := t.rTx[head := h.(tx := Filled(h.tx.msg))])
      else t
    case RSend(head) =>
      var h := HandAt(t.rTx, head);
      t.(rTx := t.rTx - {head}, sentM := t.sentM + [if h.tx.Filled? then h.tx.msg else ReadMsg(CellAt(t, h.buf))])
    case RRxTake =>
      var head := NextAvail(t.txq.ring, t.txq.dev);
      var d := At(t.txq.ring.desc, head, NO_DESC);
      t.(rRx := Got(d.addr, head, d.len, false))
    case RRead =>
      if t.rRx.Got? then t.(gotR := t.gotR + [ReadMsg(CellAt(t, t.rRx.buf))], rRx := t.rRx.(seen := true)) else t
    case RReturn => t.(rRx := NoRx)
    case _ => t
  }

  function TNext(t: Chan, ev: Ev): Chan {
    var l := Local(t, ev);
    l.(rxq := Queues(t, ev).rxq, txq := Queues(t, ev).txq)
  }

  function TInit(n0: nat, n1: nat, ev0: bool, ev1: bool, base: nat, size: nat): Chan {
    Chan(Init(n0, ev0), Init(n1, ev1), Pool(base, size, size), map[], 0, false, false,
         map[], NoRx, map[], NoRx, [], [], [], [], map[])
  }

  ghost predicate TStepAt(ts: seq<Chan>, es: seq<Ev>, i: nat) {
    i < |es| && i + 1 < |ts| && TEnabled(ts[i], es[i]) && ts[i + 1] == TNext(ts[i], es[i])
  }

  ghost predicate IsTRun(init: Chan, ts: seq<Chan>, es: seq<Ev>) {
    && |ts| == |es| + 1
    && ts[0] == init
    && forall i: nat :: i < |es| ==> TStepAt(ts, es, i)
  }
}
