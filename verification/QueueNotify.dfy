/** Notification suppression over whole runs, for both directions at once: the driver announces
    available chains to the device, the device announces used chains to the driver. */
module QueueNotify {
  import opened Bits
  import opened QueueState
  import opened QueueInvariant

  datatype Dir = ToDevice | ToDriver

  function Produced(q: Sys, dir: Dir): nat { if dir.ToDevice? then q.h.pub else q.h.ret }

  function Kicked(q: Sys, dir: Dir): nat { if dir.ToDevice? then q.h.kickedAvail else q.h.kickedUsed }

  function Consumed(q: Sys, dir: Dir): nat { if dir.ToDevice? then q.h.taken else q.h.recl }

  function Index(q: Sys, dir: Dir): nat { if dir.ToDevice? then q.ring.availIdx else q.ring.usedIdx }

  function ConsumerIndex(q: Sys, dir: Dir): nat { if dir.ToDevice? then q.dev.availCons else q.drv.usedCons }

  function Queued(q: Sys, dir: Dir): nat { if dir.ToDevice? then q.drv.queued else q.dev.queued }

  /** The event index the consumer has published. */
  function EventCell(q: Sys, dir: Dir): nat { if dir.ToDevice? then q.ring.availEvent else q.ring.usedEvent }

  function Suppressed(q: Sys, dir: Dir): bool { if dir.ToDevice? then q.ring.noNotify else q.ring.noInterrupt }

  function MustNotify(q: Sys, dir: Dir): bool {
    if dir.ToDevice? then DriverMustNotify(q.eventIdx, q.ring, q.drv)
    else DeviceMustNotify(q.eventIdx, q.ring, q.dev)
  }

  /** virtqueue_enable_cb's answer once the event index or flag is written. */
  function CheckFindsWork(q: Sys, dir: Dir): bool {
    U16(Index(q, dir) - ConsumerIndex(q, dir)) > 0
  }

  predicate IsPublish(e: Event, dir: Dir) { if dir.ToDevice? then e.AddBump? else e.RetBump? }
  predicate IsKick(e: Event, dir: Dir) { if dir.ToDevice? then e.DriverKick? else e.DeviceKick? }
  predicate IsArm(e: Event, dir: Dir) { if dir.ToDevice? then e.DeviceArm? else e.DriverArm? }
  predicate IsCheck(e: Event, dir: Dir) { if dir.ToDevice? then e.DeviceCheck? else e.DriverCheck? }
  predicate IsDisarm(e: Event, dir: Dir) { if dir.ToDevice? then e.DeviceDisarm? else e.DriverDisarm? }
  predicate Arming(q: Sys, dir: Dir) { if dir.ToDevice? then q.vpc.VArming? else q.dpc.DArming? }

  /** The consumer asks to hear about the publish that follows its count c. */
  predicate Armed(q: Sys, dir: Dir, c: nat) {
    if q.eventIdx then EventCell(q, dir) == U16(c) else !Suppressed(q, dir)
  }

  ghost predicate NotifyInv(q: Sys, dir: Dir) {
    && Kicked(q, dir) <= Produced(q, dir)
    && Queued(q, dir) == U16(Produced(q, dir) - Kicked(q, dir))
    && EventCell(q, dir) < WORD16
    && (Arming(q, dir) ==> Armed(q, dir, Consumed(q, dir)))
  }

  // ---- One step, seen from one direction ----

  /** What event e does to the counts of this direction. */
  ghost predicate Counted(q: Sys, e: Event, q': Sys, dir: Dir) {
    && q'.n == q.n && q'.eventIdx == q.eventIdx
    && Produced(q', dir) == Produced(q, dir) + (if IsPublish(e, dir) then 1 else 0)
    && Kicked(q', dir) == (if IsKick(e, dir) then Produced(q, dir) else Kicked(q, dir))
    && Consumed(q, dir) <= Consumed(q', dir)
    && (IsArm(e, dir) || IsDisarm(e, dir) ==> Consumed(q', dir) == Consumed(q, dir))
  }

  /** What event e does to the consumer's wish to be notified. */
  ghost predicate Wished(q: Sys, e: Event, q': Sys, dir: Dir) {
    && (IsArm(e, dir) ==> Armed(q', dir, Consumed(q, dir)))
    && (IsDisarm(e, dir) && q.eventIdx ==> EventCell(q', dir) == U16(Consumed(q, dir) - q.n - 1))
    && (IsDisarm(e, dir) && !q.eventIdx ==> Suppressed(q', dir))
    && (!q.eventIdx ==> EventCell(q', dir) == EventCell(q, dir))
    && (!IsArm(e, dir) && !IsDisarm(e, dir) ==>
          EventCell(q', dir) == EventCell(q, dir) && Suppressed(q', dir) == Suppressed(q, dir))
  }

  ghost predicate Viewed(q: Sys, e: Event, q': Sys, dir: Dir) {
    Counted(q, e, q', dir) && Wished(q, e, q', dir)
  }

  lemma StepCounted(q: Sys, e: Event, dir: Dir)
    requires Enabled(q, e)
    ensures Counted(q, e, Next(q, e), dir)
  {}

  lemma StepWished(q: Sys, e: Event, dir: Dir)
    requires Counters(q) && |q.ring.desc| == q.n && Enabled(q, e)
    ensures Wished(q, e, Next(q, e), dir)
  {
    WrapDiff(Consumed(q, dir), q.n + 1);
  }

  lemma StepView(q: Sys, e: Event, dir: Dir)
    requires Inv(q) && Enabled(q, e)
    ensures Viewed(q, e, Next(q, e), dir)
  {
    StepCounted(q, e, dir);
    StepWished(q, e, dir);
  }

  /** What event e does to the queued count. */
  ghost predicate Requeued(q: Sys, e: Event, q': Sys, dir: Dir) {
    Queued(q', dir) ==
      (if IsPublish(e, dir) then U16(Queued(q, dir) + 1) else if IsKick(e, dir) then 0 else Queued(q, dir))
  }

  /** What event e does to a side that is arming. */
  ghost predicate Rearmed(q: Sys, e: Event, q': Sys, dir: Dir) {
    && (Arming(q', dir) ==> IsArm(e, dir) || (Arming(q, dir) && Consumed(q', dir) == Consumed(q, dir)))
    && (Arming(q, dir) ==> !IsArm(e, dir) && !IsDisarm(e, dir))
  }

  lemma StepQueued(q: Sys, e: Event, dir: Dir)
    requires Enabled(q, e)
    ensures Requeued(q, e, Next(q, e), dir)
  {}

  lemma StepArming(q: Sys, e: Event, dir: Dir)
    requires Enabled(q, e)
    ensures Rearmed(q, e, Next(q, e), dir)
  {}

  lemma NotifyKept(q: Sys, e: Event, q': Sys, dir: Dir)
    requires NotifyInv(q, dir) && Viewed(q, e, q', dir) && Requeued(q, e, q', dir) && Rearmed(q, e, q', dir)
    ensures NotifyInv(q', dir)
  {
    CounterNext(Produced(q, dir) - Kicked(q, dir));
  }

  lemma StepNotifyInv(q: Sys, e: Event, dir: Dir)
    requires Inv(q) && Enabled(q, e) && NotifyInv(q, dir)
    ensures NotifyInv(Next(q, e), dir)
  {
    StepView(q, e, dir);
    StepQueued(q, e, dir);
    StepArming(q, e, dir);
    NotifyKept(q, e, Next(q, e), dir);
  }

  lemma {:induction false} RunNotifyInv(n: nat, ev: bool, qs: seq<Sys>, es: seq<Event>, i: nat, dir: Dir)
    requires RingSize(n) && IsRun(n, ev, qs, es) && i < |qs|
    ensures Inv(qs[i]) && qs[i].n == n && qs[i].eventIdx == ev && NotifyInv(qs[i], dir)
  {
    RunInv(n, ev, qs, es, i);
    if i > 0 {
      RunNotifyInv(n, ev, qs, es, i - 1, dir);
      assert StepAt(qs, es, i - 1);
      StepNotifyInv(qs[i - 1], es[i - 1], dir);
    }
  }

  /** One event of a run, seen from one direction. */
  lemma RunView(n: nat, ev: bool, qs: seq<Sys>, es: seq<Event>, k: nat, dir: Dir)
    requires RingSize(n) && IsRun(n, ev, qs, es) && k < |es|
    ensures Viewed(qs[k], es[k], qs[k + 1], dir) && Kicked(qs[k], dir) <= Produced(qs[k], dir)
  {
    RunNotifyInv(n, ev, qs, es, k, dir);
    assert StepAt(qs, es, k);
    StepView(qs[k], es[k], dir);
  }

  // ---- The event-index test is exact ----

  /** Some count in [lo, hi) has this 16-bit value. */
  ghost predicate Crossed(lo: nat, hi: nat, event: nat) {
    exists x: nat :: lo <= x < hi && U16(x) == event
  }

  /** vring_need_event holds exactly when the event index lies in the circular interval
      [old, new), for any old and new less than a full turn apart. */
  lemma NeedEventExact(lo: nat, hi: nat, event: nat)
    requires lo <= hi < lo + WORD16 && event < WORD16
    ensures NeedEvent(event, U16(hi), U16(lo)) <==> Crossed(lo, hi, event)
  {
    CounterEq(lo, hi);
    var d := U16(hi - 1 - event);
    WrapDiff(hi, event + 1);
    if d < hi - lo {
      var x := hi - 1 - d;
      U16Unique(x, (hi - 1 - event) / WORD16, event);
      assert lo <= x < hi && U16(x) == event;
    }
    forall x: nat | lo <= x < hi && U16(x) == event
      ensures d < hi - lo
    {
      U16Unique(hi - 1 - event, x / WORD16, hi - 1 - x);
    }
  }

  lemma MustNotifyMeans(q: Sys, dir: Dir)
    requires Counters(q) && q.eventIdx
    ensures MustNotify(q, dir) ==
      NeedEvent(EventCell(q, dir), U16(Produced(q, dir)), U16(U16(Produced(q, dir)) - Queued(q, dir)))
  {}

  /** A kick notifies exactly if the peer's event index was crossed since the previous kick, as long
      as fewer than 65536 entries were published in between. */
  lemma KickExact(q: Sys, dir: Dir)
    requires Counters(q) && NotifyInv(q, dir) && q.eventIdx
    requires Produced(q, dir) - Kicked(q, dir) < WORD16
    ensures MustNotify(q, dir) <==> Crossed(Kicked(q, dir), Produced(q, dir), EventCell(q, dir))
  {
    var hi, lo := Produced(q, dir), Kicked(q, dir);
    MustNotifyMeans(q, dir);
    WrapDiff(hi, hi - lo);
    Small(hi - lo, WORD16);
    NeedEventExact(lo, hi, EventCell(q, dir));
  }

  /** The same for every kick of every run. */
  lemma KickExactInRuns(n: nat, qs: seq<Sys>, es: seq<Event>, k: nat, dir: Dir)
    requires RingSize(n) && IsRun(n, true, qs, es) && k < |es| && IsKick(es[k], dir)
    requires Produced(qs[k], dir) - Kicked(qs[k], dir) < WORD16
    ensures MustNotify(qs[k], dir) <==> Crossed(Kicked(qs[k], dir), Produced(qs[k], dir), EventCell(qs[k], dir))
  {
    RunNotifyInv(n, true, qs, es, k, dir);
    KickExact(qs[k], dir);
  }

  /** The kick's test at count hi, with the 16-bit count of publishes since count lo. */
  predicate KickTest(event: nat, lo: nat, hi: nat) {
    NeedEvent(event, U16(hi), U16(U16(hi) - U16(hi - lo)))
  }

  /** The bound is exactly right: the test answers correctly for every event index if and only if
      fewer than 65536 entries were published since the previous kick. */
  lemma KickExactIff(lo: nat, hi: nat)
    requires lo <= hi
    ensures (forall event: nat :: event < WORD16 ==> (KickTest(event, lo, hi) <==> Crossed(lo, hi, event)))
      <==> hi - lo < WORD16
  {
    if hi - lo < WORD16 {
      WrapDiff(hi, hi - lo);
      Small(hi - lo, WORD16);
      forall event: nat | event < WORD16 ensures KickTest(event, lo, hi) <==> Crossed(lo, hi, event) {
        NeedEventExact(lo, hi, event);
      }
    } else {
      var event, r := U16(hi), U16(hi - lo);
      FullTurnSilent(hi, r);
      TurnCrosses(lo, hi);
      assert !KickTest(event, lo, hi) && Crossed(lo, hi, event);
    }
  }

  lemma FullTurnSilent(hi: nat, r: nat)
    requires r < WORD16
    ensures !NeedEvent(U16(hi), U16(hi), U16(U16(hi) - r))
  {
    U16Unique(U16(hi) - U16(hi) - 1, -1, WORD16 - 1);
  }

  lemma TurnCrosses(lo: nat, hi: nat)
    requires WORD16 <= hi - lo
    ensures Crossed(lo, hi, U16(hi))
  {
    var x: nat := hi - WORD16;
    U16Unique(x, hi / WORD16 - 1, U16(hi));
    assert lo <= x < hi && U16(x) == U16(hi);
  }

  lemma TurnCoversAll(lo: nat, c: nat)
    requires c < WORD16
    ensures Crossed(lo, lo + WORD16, c)
  {
    var q, x := lo / WORD16, lo - U16(lo) + c;
    if x < lo { x := x + WORD16; q := q + 1; }
    U16Unique(x, q, c);
    assert lo <= x < lo + WORD16;
  }

  /** The bound is needed: after exactly 65536 unannounced publishes every event index has been
      crossed, and yet the kick stays silent. */
  lemma KickBlindAfterFullTurn(q: Sys, dir: Dir)
    requires Counters(q) && NotifyInv(q, dir) && q.eventIdx
    requires Produced(q, dir) - Kicked(q, dir) == WORD16
    ensures Crossed(Kicked(q, dir), Produced(q, dir), EventCell(q, dir)) && !MustNotify(q, dir)
  {
    var lo, c := Kicked(q, dir), EventCell(q, dir);
    TurnCoversAll(lo, c);
    WrapDiff(Produced(q, dir), 0);
  }

  // ---- No lost wake-up ----

  /** Between i and k the consumer neither enables nor disables its callbacks. */
  ghost predicate Undisturbed(es: seq<Event>, i: nat, k: nat, dir: Dir)
    requires k <= |es|
  {
    forall j: nat :: i <= j < k ==> !IsArm(es[j], dir) && !IsDisarm(es[j], dir)
  }

  lemma {:induction false} CellKept(n: nat, ev: bool, qs: seq<Sys>, es: seq<Event>, i: nat, k: nat, dir: Dir)
    requires RingSize(n) && IsRun(n, ev, qs, es) && i <= k < |qs|
    requires Undisturbed(es, i, k, dir)
    ensures EventCell(qs[k], dir) == EventCell(qs[i], dir) && Suppressed(qs[k], dir) == Suppressed(qs[i], dir)
    ensures qs[i].eventIdx == qs[k].eventIdx == ev && qs[i].n == qs[k].n == n
    ensures Produced(qs[i], dir) <= Produced(qs[k], dir) && Kicked(qs[i], dir) <= Kicked(qs[k], dir)
    decreases k
  {
    if i < k {
      CellKept(n, ev, qs, es, i, k - 1, dir);
      RunView(n, ev, qs, es, k - 1, dir);
    } else {
      RunNotifyInv(n, ev, qs, es, k, dir);
    }
  }

  /** Without publishes the produced count stands still. */
  lemma {:induction false} ProducedKept(n: nat, ev: bool, qs: seq<Sys>, es: seq<Event>, i: nat, k: nat, dir: Dir)
    requires RingSize(n) && IsRun(n, ev, qs, es) && i <= k < |qs|
    requires forall j: nat :: i <= j < k ==> !IsPublish(es[j], dir)
    ensures Produced(qs[k], dir) == Produced(qs[i], dir)
    decreases k
  {
    if i < k {
      ProducedKept(n, ev, qs, es, i, k - 1, dir);
      RunView(n, ev, qs, es, k - 1, dir);
    }
  }

  /** Without kicks the last announced count stands still. */
  lemma {:induction false} KickedKept(n: nat, ev: bool, qs: seq<Sys>, es: seq<Event>, i: nat, k: nat, dir: Dir)
    requires RingSize(n) && IsRun(n, ev, qs, es) && i <= k < |qs|
    requires forall j: nat :: i <= j < k ==> !IsKick(es[j], dir)
    ensures Kicked(qs[k], dir) == Kicked(qs[i], dir)
    ensures Produced(qs[i], dir) <= Produced(qs[k], dir)
    decreases k
  {
    if i < k {
      KickedKept(n, ev, qs, es, i, k - 1, dir);
      RunView(n, ev, qs, es, k - 1, dir);
    }
  }

  /** If virtqueue_enable_cb answers "nothing to do" at event i, then the peer's first kick k after
      its next publish p notifies: for both directions, in flag and event-index mode, whatever
      else happens in between, provided the consumer leaves its callbacks enabled. */
  lemma NoLostWakeup(n: nat, ev: bool, qs: seq<Sys>, es: seq<Event>, i: nat, p: nat, k: nat, dir: Dir)
    requires RingSize(n) && IsRun(n, ev, qs, es) && i < p < k < |es|
    requires IsCheck(es[i], dir) && !CheckFindsWork(qs[i], dir)
    requires IsPublish(es[p], dir) && forall j: nat :: i < j < p ==> !IsPublish(es[j], dir)
    requires IsKick(es[k], dir) && forall j: nat :: p < j < k ==> !IsKick(es[j], dir)
    requires Undisturbed(es, i, k, dir)
    requires Produced(qs[k], dir) - Kicked(qs[k], dir) < WORD16
    ensures MustNotify(qs[k], dir)
  {
    var c := Consumed(qs[i], dir);
    RunNotifyInv(n, ev, qs, es, i, dir);
    assert StepAt(qs, es, i);
    CheckMeansEmpty(qs[i], dir);
    ProducedKept(n, ev, qs, es, i, p, dir);
    RunNotifyInv(n, ev, qs, es, p, dir);
    assert StepAt(qs, es, p);
    StepView(qs[p], es[p], dir);
    KickedKept(n, ev, qs, es, p + 1, k, dir);
    CellKept(n, ev, qs, es, i, k, dir);
    RunNotifyInv(n, ev, qs, es, k, dir);
    assert Armed(qs[k], dir, c);
    if ev {
      assert Kicked(qs[k], dir) <= c < Produced(qs[k], dir);
      KickExact(qs[k], dir);
    }
  }

  lemma CheckMeansEmpty(q: Sys, dir: Dir)
    requires Inv(q)
    ensures CheckFindsWork(q, dir) <==> Consumed(q, dir) < Produced(q, dir)
  {
    Window(q);
    CounterEq(Consumed(q, dir), Produced(q, dir));
  }

  // ---- A consumer that never enables or disables callbacks ----

  /** A multiple of 65536 lies in [lo, hi). */
  ghost predicate PassesTurn(lo: nat, hi: nat) {
    exists m: nat :: lo <= WORD16 * m < hi
  }

  lemma ZeroCrossed(lo: nat, hi: nat)
    ensures Crossed(lo, hi, 0) <==> PassesTurn(lo, hi)
  {
    if Crossed(lo, hi, 0) {
      var x: nat :| lo <= x < hi && U16(x) == 0;
      assert x == WORD16 * (x / WORD16);
    }
    if PassesTurn(lo, hi) {
      var m: nat :| lo <= WORD16 * m < hi;
      U16Unique(WORD16 * m, m, 0);
      assert U16(WORD16 * m) == 0;
    }
  }

  /** The consumer's wish is still that of zeroed ring memory. */
  ghost predicate Untouched(q: Sys, dir: Dir) {
    NotifyInv(q, dir) && EventCell(q, dir) == 0 && !Suppressed(q, dir)
  }

  /** Then a kick notifies always in flag mode, and in event-index mode exactly if the count has passed
      a multiple of 65536 since the previous kick. */
  lemma UntouchedKick(q: Sys, dir: Dir)
    requires Counters(q) && Untouched(q, dir) && Produced(q, dir) - Kicked(q, dir) < WORD16
    ensures MustNotify(q, dir) <==> !q.eventIdx || PassesTurn(Kicked(q, dir), Produced(q, dir))
  {
    if q.eventIdx {
      KickExact(q, dir);
      ZeroCrossed(Kicked(q, dir), Produced(q, dir));
    }
  }

  lemma UntouchedStep(q: Sys, e: Event, dir: Dir)
    requires Inv(q) && Enabled(q, e) && Untouched(q, dir) && !IsArm(e, dir) && !IsDisarm(e, dir)
    ensures Untouched(Next(q, e), dir) && Next(q, e).eventIdx == q.eventIdx
  {
    StepNotifyInv(q, e, dir);
    StepView(q, e, dir);
  }

  // ---- How long disabling lasts ----

  /** The consumer's wish is still that of a virtqueue_disable_cb at its count c. */
  ghost predicate DisabledAt(q: Sys, dir: Dir, c: nat) {
    NotifyInv(q, dir) && if q.eventIdx then EventCell(q, dir) == U16(c - q.n - 1) else Suppressed(q, dir)
  }

  lemma DisarmDisables(q: Sys, e: Event, dir: Dir)
    requires Inv(q) && Enabled(q, e) && NotifyInv(q, dir) && IsDisarm(e, dir)
    ensures DisabledAt(Next(q, e), dir, Consumed(q, dir))
  {
    StepNotifyInv(q, e, dir);
    StepView(q, e, dir);
  }

  lemma DisabledStep(q: Sys, e: Event, dir: Dir, c: nat)
    requires Inv(q) && Enabled(q, e) && DisabledAt(q, dir, c) && !IsArm(e, dir) && !IsDisarm(e, dir)
    ensures DisabledAt(Next(q, e), dir, c)
  {
    StepNotifyInv(q, e, dir);
    StepView(q, e, dir);
  }

  /** Then no kick notifies in flag mode; in event-index mode a kick notifies exactly if a count equal to
      c - n - 1 modulo 65536 was passed since the previous kick. If that kick was within
      [c - n, c + 65535 - n], this is the case exactly once the count exceeds c + 65535 - n. */
  lemma DisabledKick(q: Sys, dir: Dir, c: nat)
    requires Counters(q) && RingSize(q.n) && DisabledAt(q, dir, c)
    ensures !q.eventIdx ==> !MustNotify(q, dir)
    ensures var n, lo, hi := q.n, Kicked(q, dir), Produced(q, dir);
      q.eventIdx && hi - lo < WORD16 ==>
        && (MustNotify(q, dir) <==> Crossed(lo, hi, U16(c - n - 1)))
        && (c - n <= lo <= c + 65535 - n ==> (MustNotify(q, dir) <==> hi > c + 65535 - n))
  {
    RingSizeFacts(q.n);
    var n, lo, hi := q.n, Kicked(q, dir), Produced(q, dir);
    if q.eventIdx && hi - lo < WORD16 {
      KickExact(q, dir);
      if c - n <= lo <= c + 65535 - n { FarEvent(c, n, lo, hi); }
    }
  }

  /** After virtqueue_disable_cb at consumer count c, and until the consumer touches the setting
      again: in flag mode no kick notifies; in event-index mode a kick whose predecessor was within
      [c - n, c + 65535 - n] notifies exactly once its count exceeds c + 65535 - n. */
  lemma SuppressionBound(n: nat, ev: bool, qs: seq<Sys>, es: seq<Event>, i: nat, k: nat, dir: Dir)
    requires RingSize(n) && IsRun(n, ev, qs, es) && i < k < |es|
    requires IsDisarm(es[i], dir) && IsKick(es[k], dir) && Undisturbed(es, i + 1, k, dir)
    ensures !ev ==> !MustNotify(qs[k], dir)
    ensures var c, lo, hi := Consumed(qs[i], dir), Kicked(qs[k], dir), Produced(qs[k], dir);
      ev && c - n <= lo <= c + 65535 - n && hi - lo < WORD16 ==>
        (MustNotify(qs[k], dir) <==> hi > c + 65535 - n)
  {
    RunNotifyInv(n, ev, qs, es, i, dir);
    assert StepAt(qs, es, i);
    StepView(qs[i], es[i], dir);
    CellKept(n, ev, qs, es, i + 1, k, dir);
    RunNotifyInv(n, ev, qs, es, k, dir);
    DisabledKick(qs[k], dir, Consumed(qs[i], dir));
  }

  lemma FarEvent(c: nat, n: nat, lo: nat, hi: nat)
    requires 1 <= n <= 32768 && c - n <= lo <= c + 65535 - n && lo <= hi < lo + WORD16
    ensures Crossed(lo, hi, U16(c - n - 1)) <==> hi > c + 65535 - n
  {
    var x: nat := c + 65535 - n;
    U16Unique(x, (c - n - 1) / WORD16 + 1, U16(c - n - 1));
    forall y: nat | lo <= y < hi && U16(y) == U16(x)
      ensures y >= x
    {
      if y < x { CounterEq(y, x); }
    }
  }

  /** The condition on the peer's previous kick holds from the start if it held when the callbacks
      were disabled: announced counts never decrease. */
  lemma SuppressionPersists(n: nat, ev: bool, qs: seq<Sys>, es: seq<Event>, i: nat, k: nat, dir: Dir)
    requires RingSize(n) && IsRun(n, ev, qs, es) && i < k < |es|
    requires IsDisarm(es[i], dir) && IsKick(es[k], dir) && Undisturbed(es, i + 1, k, dir) && ev
    requires Kicked(qs[i], dir) >= Consumed(qs[i], dir) - n
    requires Produced(qs[k], dir) <= Consumed(qs[i], dir) + 65535 - n
    ensures !MustNotify(qs[k], dir)
  {
    RunNotifyInv(n, ev, qs, es, i, dir);
    assert StepAt(qs, es, i);
    StepView(qs[i], es[i], dir);
    CellKept(n, ev, qs, es, i + 1, k, dir);
    RunNotifyInv(n, ev, qs, es, k, dir);
    SuppressionBound(n, ev, qs, es, i, k, dir);
  }
}
