/** The split virtqueue as a two-party state machine: ring memory, the private state of the
    driver (master) and of the device (slave), history variables, and one event for every
    step at which the other side may interleave. */
module QueueState {
  import opened Bits

  const CHAIN_END: nat := 32768
  const NULL: nat := 0

  const F_NEXT: bv16 := 1
  const F_WRITE: bv16 := 2
  const F_INDIRECT: bv16 := 4

  datatype Buf = Buf(addr: nat, len: nat)
  datatype Desc = Desc(addr: nat, len: nat, flags: bv16, next: nat)
  datatype UsedElem = UsedElem(id: nat, len: nat)
  datatype Extra = Extra(cookie: nat, ndescs: nat)

  /** Memory shared by the two processors. */
  datatype Ring = Ring(
    desc: seq<Desc>,
    availIdx: nat, availRing: seq<nat>, noInterrupt: bool, usedEvent: nat,
    usedIdx: nat, usedRing: seq<UsedElem>, noNotify: bool, availEvent: nat)

  datatype Driver = Driver(freeCnt: nat, head: nat, usedCons: nat, queued: nat, descx: seq<Extra>)

  datatype Device = Device(availCons: nat, queued: nat)

  /** Element i, or a default where C would read outside the table; `InBounds` in QueueTheorems
      shows that reachable states never use the default. */
  function At<T>(s: seq<T>, i: nat, default: T): T {
    if i < |s| then s[i] else default
  }

  function Put<T>(s: seq<T>, i: nat, x: T): (r: seq<T>)
    ensures |r| == |s|
  {
    if i < |s| then s[i := x] else s
  }

  const NO_DESC: Desc := Desc(0, 0, 0, CHAIN_END)
  const NO_USED: UsedElem := UsedElem(0, 0)
  const NO_EXTRA: Extra := Extra(NULL, 0)

  // ---- The code's own computations, on values ----

  function ChainFlags(i: nat, needed: nat, readable: nat): bv16 {
    (if i + 1 < needed then F_NEXT else 0) | (if i >= readable then F_WRITE else 0)
  }

  /** The descriptor-filling loop from descriptor idx on, for buffers i and later. */
  function Fill(desc: seq<Desc>, idx: nat, bufs: seq<Buf>, readable: nat, i: nat): (r: (seq<Desc>, nat))
    ensures |r.0| == |desc|
    decreases |bufs| - i
  {
    if i >= |bufs| then (desc, idx)
    else
      var d := At(desc, idx, NO_DESC);
      var d' := Desc(bufs[i].addr, bufs[i].len, ChainFlags(i, |bufs|, readable), d.next);
      Fill(Put(desc, idx, d'), d.next, bufs, readable, i + 1)
  }

  /** The last descriptor of the chain starting at idx and the number of links followed. */
  function WalkChain(desc: seq<Desc>, idx: nat, fuel: nat): (nat, nat)
    decreases fuel
  {
    var d := At(desc, idx, NO_DESC);
    if fuel == 0 || d.flags & F_NEXT == 0 then (idx, 0)
    else
      var (last, links) := WalkChain(desc, d.next, fuel - 1);
      (last, links + 1)
  }

  function ChainTail(desc: seq<Desc>, idx: nat): (nat, nat) {
    if At(desc, idx, NO_DESC).flags & F_INDIRECT == 0 then WalkChain(desc, idx, |desc|) else (idx, 0)
  }

  /** virtqueue_add_buffer up to and including the write of the available slot. */
  function AddChain(r: Ring, d: Driver, bufs: seq<Buf>, readable: nat, cookie: nat): (Ring, Driver) {
    var (desc, idx) := Fill(r.desc, d.head, bufs, readable, 0);
    var slot := if |r.desc| == 0 then 0 else Slot(r.availIdx, |r.desc|);
    (r.(desc := desc, availRing := Put(r.availRing, slot, d.head)),
     d.(descx := Put(d.descx, d.head, Extra(cookie, |bufs|)), head := idx,
        freeCnt := if |bufs| <= d.freeCnt then d.freeCnt - |bufs| else 0))
  }

  function BumpAvail(r: Ring, d: Driver): (Ring, Driver) {
    (r.(availIdx := U16(r.availIdx + 1)), d.(queued := U16(d.queued + 1)))
  }

  function FreeChain(r: Ring, d: Driver, id: nat): (Ring, Driver) {
    var x := At(d.descx, id, NO_EXTRA);
    var (last, links) := ChainTail(r.desc, id);
    (r.(desc := Put(r.desc, last, At(r.desc, last, NO_DESC).(next := d.head))),
     d.(freeCnt := d.freeCnt + x.ndescs, head := id,
        descx := Put(d.descx, id, Extra(x.cookie, U16(x.ndescs - 1 - links)))))
  }

  /** The used element that virtqueue_get_buffer reads next. */
  function NextUsed(r: Ring, d: Driver): UsedElem {
    if |r.desc| == 0 then NO_USED else At(r.usedRing, Slot(d.usedCons, |r.desc|), NO_USED)
  }

  /** virtqueue_get_buffer after its emptiness test. */
  function GetUsed(r: Ring, d: Driver): (Ring, Driver) {
    var id := U16(NextUsed(r, d).id);
    var (r', d') := FreeChain(r, d, id);
    (r', d'.(usedCons := U16(d.usedCons + 1),
             descx := Put(d'.descx, id, At(d'.descx, id, NO_EXTRA).(cookie := NULL))))
  }

  function UsedCookie(r: Ring, d: Driver): nat {
    At(d.descx, U16(NextUsed(r, d).id), NO_EXTRA).cookie
  }

  /** The head that virtqueue_get_available_buffer reads next. */
  function NextAvail(r: Ring, v: Device): nat {
    if |r.desc| == 0 then 0 else At(r.availRing, Slot(v.availCons, |r.desc|), 0)
  }

  function TakeAvail(v: Device): Device {
    v.(availCons := U16(v.availCons + 1))
  }

  function WriteUsed(r: Ring, head: nat, len: nat): Ring {
    if |r.desc| == 0 then r
    else r.(usedRing := Put(r.usedRing, Slot(r.usedIdx, |r.desc|), UsedElem(head, len)))
  }

  function BumpUsed(r: Ring, v: Device): (Ring, Device) {
    (r.(usedIdx := U16(r.usedIdx + 1)), v.(queued := U16(v.queued + 1)))
  }

  // ---- Notification suppression ----

  function NeedEvent(event: nat, new_: nat, old_: nat): bool {
    U16(new_ - event - 1) < U16(new_ - old_)
  }

  function DriverMustNotify(eventIdx: bool, r: Ring, d: Driver): bool {
    if eventIdx then NeedEvent(r.availEvent, r.availIdx, U16(r.availIdx - d.queued)) else !r.noNotify
  }

  function DeviceMustNotify(eventIdx: bool, r: Ring, v: Device): bool {
    if eventIdx then NeedEvent(r.usedEvent, r.usedIdx, U16(r.usedIdx - v.queued)) else !r.noInterrupt
  }

  function DriverEnable(eventIdx: bool, r: Ring, d: Driver): Ring {
    if eventIdx then r.(usedEvent := d.usedCons) else r.(noInterrupt := false)
  }

  function DeviceEnable(eventIdx: bool, r: Ring, v: Device): Ring {
    if eventIdx then r.(availEvent := v.availCons) else r.(noNotify := false)
  }

  function DriverDisable(eventIdx: bool, r: Ring, d: Driver): Ring {
    if eventIdx then r.(usedEvent := U16(d.usedCons - |r.desc| - 1)) else r.(noInterrupt := true)
  }

  function DeviceDisable(eventIdx: bool, r: Ring, v: Device): Ring {
    if eventIdx then r.(availEvent := U16(v.availCons - |r.desc| - 1)) else r.(noNotify := true)
  }

  // ---- History: what has been added, taken, returned and reclaimed ----

  datatype Chain = Chain(idxs: seq<nat>, bufs: seq<Buf>, readable: nat, cookie: nat)

  /** Where a descriptor is: at a position of the free list or of an added chain. */
  datatype Loc = Free(pos: nat) | In(chain: nat, pos: nat)

  /** Whether a chain has been returned, and as which used element. */
  datatype Stage = Pending | Returned(k: nat)

  datatype History = History(
    free: seq<nat>, place: seq<Loc>,
    added: seq<Chain>, stage: seq<Stage>, pub: nat,
    taken: nat,
    order: seq<nat>, lens: seq<nat>, ret: nat,
    recl: nat,
    kickedAvail: nat, kickedUsed: nat)

  function AddHistory(h: History, bufs: seq<Buf>, readable: nat, cookie: nat): History {
    var k := if |bufs| <= |h.free| then |bufs| else |h.free|;
    var a := |h.added|;
    h.(added := h.added + [Chain(h.free[..k], bufs, readable, cookie)],
       stage := h.stage + [Pending],
       free := h.free[k..],
       place := seq(|h.place|, d requires 0 <= d < |h.place| =>
                  if h.place[d].In? then h.place[d]
                  else if h.place[d].pos < k then In(a, h.place[d].pos) else Free(h.place[d].pos - k)))
  }

  /** The add index of the chain whose first descriptor is head. */
  function ChainOf(h: History, head: nat): nat {
    var l := At(h.place, head, Free(0));
    if l.In? then l.chain else 0
  }

  function ReturnHistory(h: History, head: nat, len: nat): History {
    var a := ChainOf(h, head);
    h.(order := h.order + [a], lens := h.lens + [len], stage := Put(h.stage, a, Returned(|h.order|)))
  }

  const NO_CHAIN: Chain := Chain([], [], 0, NULL)

  function ReclaimHistory(h: History): History {
    var a := At(h.order, h.recl, 0);
    var idxs := At(h.added, a, NO_CHAIN).idxs;
    h.(recl := h.recl + 1,
       free := idxs + h.free,
       place := seq(|h.place|, d requires 0 <= d < |h.place| =>
                  match h.place[d]
                  case Free(p) => Free(p + |idxs|)
                  case In(b, p) => if b == a then Free(p) else In(b, p)))
  }

  // ---- The machine ----

  datatype DriverPc = DIdle | Publishing | Reclaiming | DArming
  datatype DevicePc = VIdle | Taking | Returning | VArming

  datatype Sys = Sys(n: nat, eventIdx: bool, ring: Ring, drv: Driver, dev: Device,
                     dpc: DriverPc, vpc: DevicePc, h: History)

  datatype Event =
    | AddWrite(bufs: seq<Buf>, readable: nat, cookie: nat)
    | AddBump
    | UsedLook
    | Reclaim
    | AvailLook
    | Take
    | RetWrite(head: nat, len: nat)
    | RetBump
    | DriverKick
    | DriverArm
    | DriverCheck
    | DriverDisarm
    | DeviceKick
    | DeviceArm
    | DeviceCheck
    | DeviceDisarm

  /** Head belongs to a chain the device has taken and not yet returned. */
  predicate Held(h: History, head: nat) {
    && head < |h.place|
    && h.place[head].In?
    && h.place[head].pos == 0
    && h.place[head].chain < h.taken
    && h.place[head].chain < |h.stage|
    && h.stage[h.place[head].chain].Pending?
  }

  /** What each operation demands of its caller, and the program counters. */
  predicate Enabled(q: Sys, e: Event) {
    match e
    case AddWrite(bufs, readable, cookie) =>
      q.dpc.DIdle? && 1 <= |bufs| <= q.drv.freeCnt && readable <= |bufs| && cookie != NULL
    case AddBump => q.dpc.Publishing?
    case UsedLook => q.dpc.DIdle?
    case Reclaim => q.dpc.Reclaiming?
    case AvailLook => q.vpc.VIdle?
    case Take => q.vpc.Taking?
    case RetWrite(head, len) => q.vpc.VIdle? && Held(q.h, head)
    case RetBump => q.vpc.Returning?
    case DriverKick => q.dpc.DIdle?
    case DriverArm => q.dpc.DIdle?
    case DriverCheck => q.dpc.DArming?
    case DriverDisarm => q.dpc.DIdle?
    case DeviceKick => q.vpc.VIdle?
    case DeviceArm => q.vpc.VIdle?
    case DeviceCheck => q.vpc.VArming?
    case DeviceDisarm => q.vpc.VIdle?
  }

  function Next(q: Sys, e: Event): Sys {
    match e
    case AddWrite(bufs, readable, cookie) =>
      var (r, d) := AddChain(q.ring, q.drv, bufs, readable, cookie);
      q.(ring := r, drv := d, dpc := Publishing, h := AddHistory(q.h, bufs, readable, cookie))
    case AddBump =>
      var (r, d) := BumpAvail(q.ring, q.drv);
      q.(ring := r, drv := d, dpc := DIdle, h := q.h.(pub := q.h.pub + 1))
    case UsedLook =>
      q.(dpc := if q.drv.usedCons == q.ring.usedIdx then DIdle else Reclaiming)
    case Reclaim =>
      var (r, d) := GetUsed(q.ring, q.drv);
      q.(ring := r, drv := d, dpc := DIdle, h := ReclaimHistory(q.h))
    case AvailLook =>
      q.(vpc := if q.dev.availCons == q.ring.availIdx then VIdle else Taking)
    case Take =>
      q.(dev := TakeAvail(q.dev), vpc := VIdle, h := q.h.(taken := q.h.taken + 1))
    case RetWrite(head, len) =>
      q.(ring := WriteUsed(q.ring, head, len), vpc := Returning, h := ReturnHistory(q.h, head, len))
    case RetBump =>
      var (r, v) := BumpUsed(q.ring, q.dev);
      q.(ring := r, dev := v, vpc := VIdle, h := q.h.(ret := q.h.ret + 1))
    case DriverKick => q.(drv := q.drv.(queued := 0), h := q.h.(kickedAvail := q.h.pub))
    case DriverArm => q.(ring := DriverEnable(q.eventIdx, q.ring, q.drv), dpc := DArming)
    case DriverCheck => q.(dpc := DIdle)
    case DriverDisarm => q.(ring := DriverDisable(q.eventIdx, q.ring, q.drv))
    case DeviceKick => q.(dev := q.dev.(queued := 0), h := q.h.(kickedUsed := q.h.ret))
    case DeviceArm => q.(ring := DeviceEnable(q.eventIdx, q.ring, q.dev), vpc := VArming)
    case DeviceCheck => q.(vpc := VIdle)
    case DeviceDisarm => q.(ring := DeviceDisable(q.eventIdx, q.ring, q.dev))
  }

  /** Ring memory zeroed and the free list threaded by the driver. */
  function InitDesc(n: nat): seq<Desc> {
    seq(n, (i: nat) => Desc(0, 0, 0, if i + 1 < n then i + 1 else CHAIN_END))
  }

  function InitRing(n: nat): Ring {
    Ring(InitDesc(n), 0, seq(n, i => 0), false, 0, 0, seq(n, i => NO_USED), false, 0)
  }

  function InitDriver(n: nat): Driver {
    Driver(n, 0, 0, 0, seq(n, i => NO_EXTRA))
  }

  function Init(n: nat, eventIdx: bool): Sys {
    Sys(n, eventIdx, InitRing(n), InitDriver(n), Device(0, 0), DIdle, VIdle,
        History(seq(n, (i: nat) => i), seq(n, (i: nat) => Free(i)), [], [], 0, 0, [], [], 0, 0, 0, 0))
  }

  ghost predicate StepAt(qs: seq<Sys>, es: seq<Event>, i: nat) {
    i < |es| && i + 1 < |qs| && Enabled(qs[i], es[i]) && qs[i + 1] == Next(qs[i], es[i])
  }

  /** qs is a run: it starts in an initial state and every event is legal where it happens. */
  ghost predicate IsRun(n: nat, eventIdx: bool, qs: seq<Sys>, es: seq<Event>) {
    && |qs| == |es| + 1
    && qs[0] == Init(n, eventIdx)
    && forall i: nat :: i < |es| ==> StepAt(qs, es, i)
  }
}
