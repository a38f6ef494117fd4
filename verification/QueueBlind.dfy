/** A run of 65536 complete rounds (add, take, return, reclaim) in which neither side kicks. It reaches
    the state in which the 16-bit count of unannounced publishes has wrapped and a kick is silent
    although every event index has been crossed. */
module QueueBlind {
  import opened Bits
  import opened Counting
  import opened QueueState
  import opened QueueInvariant
  import opened QueueTheorems
  import opened QueueNotify

  /** Where both sides are: program counters and unbounded counters, with nothing announced yet. */
  ghost predicate Stands(q: Sys, d: DriverPc, v: DevicePc, added: nat, pub: nat, taken: nat, ret: nat, recl: nat) {
    && Inv(q) && q.dpc == d && q.vpc == v && q.h.kickedAvail == q.h.kickedUsed == 0
    && |q.h.added| == added && q.h.pub == pub && q.h.taken == taken && q.h.ret == ret && q.h.recl == recl
  }

  /** Both sides idle after j rounds. */
  ghost predicate Idle(q: Sys, j: nat) { Stands(q, DIdle, VIdle, j, j, j, j, j) }

  /** With every chain reclaimed there is a free descriptor. */
  lemma SomethingFree(q: Sys)
    requires Inv(q) && q.h.recl == |q.h.added| && 1 <= q.n
    ensures 1 <= q.drv.freeCnt
  {
    Partition(q);
    Window(q);
    LiveCount(q.h);
    forall a: nat ensures !Live(q.h, a) { assert Live(q.h, a) ==> a in LiveSet(q.h); }
    assert 0 in Elems(q.h.free);
  }

  const ONE: Event := AddWrite([Buf(1, 1)], 0, 1)

  lemma Offer(q: Sys, j: nat)
    requires Idle(q, j) && 1 <= q.n
    ensures Enabled(q, ONE) && Enabled(Next(q, ONE), AddBump)
    ensures Stands(Next(Next(q, ONE), AddBump), DIdle, VIdle, j + 1, j + 1, j, j, j)
  {
    SomethingFree(q);
    StepInv(q, ONE);
    StepInv(Next(q, ONE), AddBump);
  }

  lemma TakeIt(q: Sys, j: nat)
    requires Stands(q, DIdle, VIdle, j + 1, j + 1, j, j, j)
    ensures Enabled(q, AvailLook) && Enabled(Next(q, AvailLook), Take)
    ensures Stands(Next(Next(q, AvailLook), Take), DIdle, VIdle, j + 1, j + 1, j + 1, j, j)
    ensures |q.h.added[j].idxs| > 0 && Held(Next(Next(q, AvailLook), Take).h, q.h.added[j].idxs[0])
  {
    IndicesExact(q);
    StepInv(q, AvailLook);
    StepInv(Next(q, AvailLook), Take);
    HeldStep(Next(q, AvailLook), Take);
  }

  lemma GiveBack(q: Sys, j: nat, head: nat)
    requires Stands(q, DIdle, VIdle, j + 1, j + 1, j + 1, j, j) && Held(q.h, head)
    ensures Enabled(q, RetWrite(head, 1)) && Enabled(Next(q, RetWrite(head, 1)), RetBump)
    ensures Stands(Next(Next(q, RetWrite(head, 1)), RetBump), DIdle, VIdle, j + 1, j + 1, j + 1, j + 1, j)
  {
    StepInv(q, RetWrite(head, 1));
    StepInv(Next(q, RetWrite(head, 1)), RetBump);
  }

  lemma Collect(q: Sys, j: nat)
    requires Stands(q, DIdle, VIdle, j + 1, j + 1, j + 1, j + 1, j)
    ensures Enabled(q, UsedLook) && Enabled(Next(q, UsedLook), Reclaim)
    ensures Idle(Next(Next(q, UsedLook), Reclaim), j + 1)
  {
    IndicesExact(q);
    StepInv(q, UsedLook);
    StepInv(Next(q, UsedLook), Reclaim);
  }

  /** A run with one more event. */
  lemma Extend(n: nat, ev: bool, qs: seq<Sys>, es: seq<Event>, e: Event) returns (qs': seq<Sys>, es': seq<Event>)
    requires IsRun(n, ev, qs, es) && Enabled(qs[|es|], e)
    ensures IsRun(n, ev, qs', es') && es' == es + [e] && qs'[|es'|] == Next(qs[|es|], e) && qs'[|es|] == qs[|es|]
  {
    qs', es' := qs + [Next(qs[|es|], e)], es + [e];
    forall i: nat | i < |es'| ensures StepAt(qs', es', i) {
      if i < |es| { assert StepAt(qs, es, i); }
    }
  }

  lemma ExtendTwo(n: nat, ev: bool, qs: seq<Sys>, es: seq<Event>, e1: Event, e2: Event)
    returns (qs': seq<Sys>, es': seq<Event>)
    requires IsRun(n, ev, qs, es) && Enabled(qs[|es|], e1) && Enabled(Next(qs[|es|], e1), e2)
    ensures IsRun(n, ev, qs', es') && qs'[|es'|] == Next(Next(qs[|es|], e1), e2)
  {
    qs', es' := Extend(n, ev, qs, es, e1);
    qs', es' := Extend(n, ev, qs', es', e2);
  }

  /** One more round. */
  lemma Round(n: nat, qs: seq<Sys>, es: seq<Event>, j: nat) returns (qs': seq<Sys>, es': seq<Event>)
    requires RingSize(n) && IsRun(n, true, qs, es) && Idle(qs[|es|], j)
    ensures IsRun(n, true, qs', es') && Idle(qs'[|es'|], j + 1)
  {
    RunInv(n, true, qs, es, |es|);
    RingSizeFacts(n);
    Offer(qs[|es|], j);
    qs', es' := ExtendTwo(n, true, qs, es, ONE, AddBump);
    var q := qs'[|es'|];
    TakeIt(q, j);
    var head := q.h.added[j].idxs[0];
    qs', es' := ExtendTwo(n, true, qs', es', AvailLook, Take);
    GiveBack(qs'[|es'|], j, head);
    qs', es' := ExtendTwo(n, true, qs', es', RetWrite(head, 1), RetBump);
    Collect(qs'[|es'|], j);
    qs', es' := ExtendTwo(n, true, qs', es', UsedLook, Reclaim);
  }

  lemma {:induction false} Rounds(n: nat, j: nat) returns (qs: seq<Sys>, es: seq<Event>)
    requires RingSize(n)
    ensures IsRun(n, true, qs, es) && Idle(qs[|es|], j)
  {
    if j == 0 {
      qs, es := [Init(n, true)], [];
      InitInv(n, true);
    } else {
      qs, es := Rounds(n, j - 1);
      qs, es := Round(n, qs, es, j - 1);
    }
  }

  /** For every ring size and both directions, a run whose last event is a kick that stays silent
      although the peer's event index was crossed since the previous kick. */
  lemma BlindKick(n: nat, dir: Dir) returns (qs: seq<Sys>, es: seq<Event>, k: nat)
    requires RingSize(n)
    ensures IsRun(n, true, qs, es) && k + 1 == |es| && IsKick(es[k], dir)
    ensures Crossed(Kicked(qs[k], dir), Produced(qs[k], dir), EventCell(qs[k], dir)) && !MustNotify(qs[k], dir)
  {
    qs, es := Rounds(n, WORD16);
    k := |es|;
    RunNotifyInv(n, true, qs, es, k, dir);
    KickBlindAfterFullTurn(qs[k], dir);
    qs, es := Extend(n, true, qs, es, if dir.ToDevice? then DriverKick else DeviceKick);
  }
}
