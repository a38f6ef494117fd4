/** What the two sides of the RPMsg transport share: buffer memory, the status bit and the pool. */
module RpmsgShared {
  import opened QueueState
  import opened RpState
  import opened RpInvariant
  import opened RpCalls
  import opened RpmsgErrors

  /** RPMSG_TICK_COUNT / RPMSG_TICKS_PER_INTERVAL. */
  const TICKS: nat := 15000

  // ---- Shared memory and the pool ----

  /** The shared buffers, by address, and the DRIVER_OK bit; memory never written reads as zeros. */
  class SharedMemory {
    var cells: map<nat, Cell>
    var driverOk: bool

    constructor ()
      ensures cells == map[] && !driverOk
    {
      cells, driverOk := map[], false;
    }

    function Load(b: nat): Cell
      reads this
    {
      if b in cells then cells[b] else ZeroCell()
    }

    ghost predicate Matches(t: Chan)
      reads this
    {
      && driverOk == t.ready
      && (forall b :: b in t.mem ==> Load(b) == t.mem[b])
      && (forall b :: b in cells ==> |cells[b].data| == PAYLOAD_MAX)
    }

    /** metal_io_block_set of a whole buffer to zero. */
    method Clear(b: nat)
      modifies this`cells
      ensures cells == old(cells)[b := ZeroCell()]
    {
      cells := cells[b := ZeroCell()];
    }

    /** Header and payload are written into a buffer. */
    method WriteMessage(b: nat, m: Msg)
      modifies this`cells
      ensures cells == old(cells)[b := WriteMsg(old(Load(b)), m)]
    {
      var c := WriteHeader(Load(b), m);
      cells := cells[b := WritePayload(c, m.data)];
    }
  }

  class ShmPool {
    const base: nat
    const size: nat
    var avail: nat

    ghost function View(): Pool
      reads this
    {
      Pool(base, size, avail)
    }

    /** rpmsg_virtio_init_shm_pool. */
    constructor (base: nat, size: nat)
      ensures View() == Pool(base, size, size)
    {
      this.base, this.size, avail := base, size, size;
    }

    /** rpmsg_virtio_shm_pool_get_buffer: the next unused bytes of the region, or NULL. */
    method GetBuffer(want: nat) returns (buffer: nat)
      requires avail <= size
      modifies this`avail
      ensures if old(avail) < want then buffer == NULL && avail == old(avail)
              else buffer + old(avail) == base + size && avail == old(avail) - want
    {
      if avail < want {
        return NULL;
      }
      buffer := base + size - avail;
      avail := avail - want;
    }
  }

  // ---- On values ----

  ghost predicate Written(t: Chan, t': Chan, buffer: nat, m: Msg) {
    && buffer in t.mem && |t.mem[buffer].data| == PAYLOAD_MAX && |m.data| <= PAYLOAD_MAX
    && t' == t.(mem := t.mem[buffer := WriteMsg(CellAt(t, buffer), m)], mTx := t'.mTx, rTx := t'.rTx)
  }

  /** Every buffer in a sender's hand is a whole cell of memory. */
  lemma CellsWhole(t: Chan)
    requires Sound(t)
    ensures forall b :: b in t.mTx ==> b in t.mem && |t.mem[b].data| == PAYLOAD_MAX
    ensures forall head :: head in t.rTx ==> t.rTx[head].buf in t.mem && |t.mem[t.rTx[head].buf].data| == PAYLOAD_MAX
  {
    Open(t);
    forall b | b in t.mTx ensures b in t.mem && |t.mem[b].data| == PAYLOAD_MAX { assert MTxOk(t, b); }
    forall head | head in t.rTx ensures t.rTx[head].buf in t.mem && |t.mem[t.rTx[head].buf].data| == PAYLOAD_MAX {
      assert RTxOk(t, head);
    }
  }

  /** msgs is what was sent from place a up to place b. */
  ghost predicate Stretch(sent: seq<Msg>, a: nat, b: int, msgs: seq<Msg>) {
    a <= b <= |sent| && msgs == sent[a..b]
  }

  lemma StretchOn(sent: seq<Msg>, a: nat, b: nat, msgs: seq<Msg>)
    requires Stretch(sent, a, b, msgs) && b < |sent|
    ensures Stretch(sent, a, b + 1, msgs + [sent[b]])
  {}

  lemma StretchLog(sent: seq<Msg>, a: nat, b: nat, msgs: seq<Msg>)
    requires Stretch(sent, a, b, msgs)
    ensures sent[..b] == sent[..a] + msgs
  {}

  // ---- Waiting for a buffer while the peer goes on ----

  /** A poll that ends the wait whatever time is left: the size limit is known or there is a buffer. */
  predicate Decisive(limit: nat -> nat, found: nat -> bool, i: nat) {
    limit(i) != 0 || found(i)
  }

  /** What the retry loop promises: it stops at the first decisive poll, or when its time is up, and that
      poll decides the outcome. */
  ghost predicate Decided(size: nat, wait: bool, limit: nat -> nat, found: nat -> bool, err: int, polls: nat) {
    && 1 <= polls <= (if wait then TICKS + 1 else 1)
    && (forall i: nat :: i < polls - 1 ==> !Decisive(limit, found, i))
    && (polls <= (if wait then TICKS else 0) ==> Decisive(limit, found, polls - 1))
    && err ==
       (if limit(polls - 1) != 0 && size > limit(polls - 1) then RPMSG_ERR_BUFF_SIZE
        else if found(polls - 1) then RPMSG_SUCCESS
        else if polls > (if wait then TICKS else 0) then RPMSG_ERR_NO_BUFF else RPMSG_ERR_BUFF_SIZE)
  }

  /** The retry loop of rpmsg_virtio_send_offchannel_raw over what its polls meet: the i-th poll sees
      the size limit limit(i) and then finds a buffer or not. In particular a caller whose limit is never
      0, as the master's, polls once even if it is to wait. */
  method RetryLoop(size: nat, wait: bool, limit: nat -> nat, found: nat -> bool) returns (err: int, polls: nat)
    ensures Decided(size, wait, limit, found, err, polls)
    ensures limit(0) != 0 ==> polls == 1
  {
    var ticks := if wait then TICKS else 0;
    polls := 0;
    while true
      invariant ticks >= 0 && polls + ticks == if wait then TICKS else 0
      invariant forall i: nat :: i < polls ==> !Decisive(limit, found, i)
      invariant polls > 0 ==> limit(0) == 0
      decreases ticks
    {
      var avail := limit(polls);
      var buffer := found(polls);
      polls := polls + 1;
      if avail != 0 && size > avail {
        return RPMSG_ERR_BUFF_SIZE, polls;
      }
      if buffer || ticks == 0 {
        return if buffer then RPMSG_SUCCESS else RPMSG_ERR_NO_BUFF, polls;
      }
      if avail != 0 {
        return RPMSG_ERR_BUFF_SIZE, polls;
      }
      ticks := ticks - 1;
    }
  }
}
