/** What whole calls do to the notification of one direction of a queue: publishing adds to what the next
    kick announces, and a kick announces all of it and notifies exactly as the peer wished. */
module RpKicks {
  import opened Bits
  import opened QueueState
  import opened QueueInvariant
  import opened QueueNotify
  import opened RpCalls

  /** The peer wants to hear that the count has gone from lo to hi: without event indices if it has not
      suppressed notification, with them if its event index is among the counts that were passed. */
  ghost predicate Hears(q: Sys, dir: Dir, lo: nat, hi: nat) {
    if q.eventIdx then Crossed(lo, hi, EventCell(q, dir)) else !Suppressed(q, dir)
  }

  /** From q to q' entries may have been published, but there was no kick and no change of wish. */
  ghost predicate Unkicked(q: Sys, q': Sys, dir: Dir) {
    && q'.eventIdx == q.eventIdx && EventCell(q', dir) == EventCell(q, dir) && Suppressed(q', dir) == Suppressed(q, dir)
    && Kicked(q', dir) == Kicked(q, dir) && Produced(q, dir) <= Produced(q', dir)
    && (NotifyInv(q, dir) ==> NotifyInv(q', dir))
  }

  /** From q to q' there was one kick, at the end: it announced everything published, and the number of
      notifications has gone from n to n' as the peer wished, by 1 or not at all. With event indices that
      needs a queued count that is right, as in every run, and less than a turn. */
  ghost predicate KickedOnce(q: Sys, q': Sys, dir: Dir, n: nat, n': nat) {
    var lo, hi := Kicked(q, dir), Produced(q', dir);
    && Kicked(q', dir) == hi
    && ((q.eventIdx ==> NotifyInv(q, dir) && hi - lo < WORD16) ==>
          n' == n + (if Hears(q, dir, lo, hi) then 1 else 0))
  }

  lemma UnkickedMore(q: Sys, q1: Sys, q2: Sys, dir: Dir)
    requires Unkicked(q, q1, dir) && Unkicked(q1, q2, dir)
    ensures Unkicked(q, q2, dir)
  {}

  lemma AddUnkicked(q: Sys, buf: nat, len: nat, readable: nat)
    ensures Unkicked(q, AddCall(q, buf, len, readable), ToDevice)
    ensures AddCall(q, buf, len, readable).h.pub == q.h.pub + 1
  {
    if NotifyInv(q, ToDevice) { CounterNext(q.h.pub - q.h.kickedAvail); }
  }

  lemma GetUnkicked(q: Sys)
    ensures Unkicked(q, GetCall(q), ToDevice) && GetCall(q).h.pub == q.h.pub
  {}

  lemma TakeUnkicked(q: Sys)
    requires q.vpc.VIdle?
    ensures Unkicked(q, TakeCall(q), ToDriver) && TakeCall(q).h.ret == q.h.ret
  {}

  lemma GiveUnkicked(q: Sys, head: nat, len: nat)
    ensures Unkicked(q, GiveCall(q, head, len), ToDriver) && GiveCall(q, head, len).h.ret == q.h.ret + 1
  {
    if NotifyInv(q, ToDriver) { CounterNext(q.h.ret - q.h.kickedUsed); }
  }

  /** A kick in q1, after no other since q. */
  lemma KickMeans(q: Sys, q1: Sys, q2: Sys, dir: Dir, n: nat, n': nat)
    requires Inv(q1) && Unkicked(q, q1, dir)
    requires q2 == Next(q1, if dir.ToDevice? then DriverKick else DeviceKick)
    requires n' == n + (if MustNotify(q1, dir) then 1 else 0)
    ensures KickedOnce(q, q2, dir, n, n') && Produced(q2, dir) == Produced(q1, dir)
  {
    if q.eventIdx && NotifyInv(q, dir) && Produced(q1, dir) - Kicked(q, dir) < WORD16 {
      KickExact(q1, dir);
    }
  }
}
