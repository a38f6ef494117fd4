/** Waiting for a send buffer while the other side goes on: what the remote's retry loop comes to in any
    run, and the gap between its size check and its take. */
module RpWaits {
  import opened QueueState
  import opened QueueInvariant
  import opened RpState
  import opened RpInvariant
  import opened RpTheorems
  import opened RpCalls
  import opened RpmsgShared
  import opened RpmsgErrors

  // ---- The remote's polls in a run ----

  /** A buffer is offered to the remote's senders. */
  predicate IsOffered(t: Chan) { t.rxq.h.taken < t.rxq.h.pub }

  lemma OfferStays(t: Chan, ev: Ev, t': Chan)
    requires t' == TNext(t, ev) && IsOffered(t) && !ev.RTxTake? && TEnabled(t, ev)
    ensures IsOffered(t')
  {}

  /** Only the remote's own take removes an offer. */
  lemma {:induction false} OfferPersists(init: Chan, ts: seq<Chan>, es: seq<Ev>, i: nat, j: nat)
    requires IsTRun(init, ts, es) && i <= j < |ts| && IsOffered(ts[i])
    requires forall k: nat :: i <= k < j ==> !es[k].RTxTake?
    ensures IsOffered(ts[j])
    decreases j
  {
    if i < j {
      OfferPersists(init, ts, es, i, j - 1);
      assert TStepAt(ts, es, j - 1);
      OfferStays(ts[j - 1], es[j - 1], ts[j]);
    }
  }

  /** The moments of one poll in a run: the size check at c and the take at d, with no other take in
      between, since both happen under the device's lock. */
  ghost predicate PollAt(ts: seq<Chan>, es: seq<Ev>, c: nat, d: nat) {
    c <= d < |ts| == |es| + 1 && forall k: nat :: c <= k < d ==> !es[k].RTxTake?
  }

  ghost predicate PollsOf(ts: seq<Chan>, es: seq<Ev>, check: nat -> nat, take: nat -> nat,
                          limit: nat -> nat, found: nat -> bool, n: nat) {
    forall i: nat :: i < n ==> OnePoll(ts, es, check, take, limit, found, i)
  }

  ghost predicate OnePoll(ts: seq<Chan>, es: seq<Ev>, check: nat -> nat, take: nat -> nat,
                          limit: nat -> nat, found: nat -> bool, i: nat) {
    && PollAt(ts, es, check(i), take(i))
    && limit(i) == RemoteLimit(ts[check(i)]) && found(i) == IsOffered(ts[take(i)])
  }

  lemma PollMeans(s: Setup, ts: seq<Chan>, es: seq<Ev>, c: nat, d: nat)
    requires SetupOk(s) && NoLarger(s.size, s.n0, s.n1) && IsTRun(Start(s), ts, es) && PollAt(ts, es, c, d)
    ensures RemoteLimit(ts[c]) == if IsOffered(ts[c]) then PAYLOAD_MAX else 0
    ensures IsOffered(ts[c]) ==> IsOffered(ts[d])
  {
    RunStateInv(s, ts, es, c);
    LimitMeans(ts[c]);
    if IsOffered(ts[c]) { OfferPersists(Start(s), ts, es, c, d); }
  }

  lemma LimitMeans(t: Chan)
    requires Sound(t)
    ensures RemoteLimit(t) == if IsOffered(t) then PAYLOAD_MAX else 0
  {
    LengthsConstant(t);
    Open(t);
    Window(t.rxq);
  }

  /** The remote's retry loop in any run, whatever the master does meanwhile: it succeeds if its last poll
      finds a buffer; it reports that there is none only after its whole time, with no poll having found
      one; and it reports a message that is too long only if a buffer was offered and the message does
      not fit. */
  lemma RemoteWaits(s: Setup, ts: seq<Chan>, es: seq<Ev>, check: nat -> nat, take: nat -> nat,
                    limit: nat -> nat, found: nat -> bool, size: nat, wait: bool, err: int, polls: nat)
    requires SetupOk(s) && NoLarger(s.size, s.n0, s.n1) && IsTRun(Start(s), ts, es)
    requires Decided(size, wait, limit, found, err, polls) && PollsOf(ts, es, check, take, limit, found, polls)
    ensures err == RPMSG_SUCCESS <==> found(polls - 1) && (limit(polls - 1) == 0 || size <= PAYLOAD_MAX)
    ensures err == RPMSG_ERR_NO_BUFF <==> polls == (if wait then TICKS + 1 else 1) && !found(polls - 1)
    ensures err == RPMSG_ERR_BUFF_SIZE <==> limit(polls - 1) != 0 && size > PAYLOAD_MAX
    ensures forall i: nat :: i < polls - 1 ==> !Decisive(limit, found, i)
  {
    assert OnePoll(ts, es, check, take, limit, found, polls - 1);
    PollMeans(s, ts, es, check(polls - 1), take(polls - 1));
  }

  // ---- The gap between the size check and the take ----

  /** What whole calls do to the counters of their queue. */
  ghost predicate Moved(q: Sys, q': Sys, pub: nat, taken: nat, ret: nat, recl: nat) {
    && q'.h.pub == q.h.pub + pub && q'.h.taken == q.h.taken + taken
    && q'.h.ret == q.h.ret + ret && q'.h.recl == q.h.recl + recl
  }

  lemma AddCounts(q: Sys, buf: nat, len: nat)
    ensures Moved(q, AddCall(q, buf, len, 0), 1, 0, 0, 0) && AddCall(q, buf, len, 0).vpc == q.vpc
  {}

  lemma GetCounts(q: Sys)
    ensures Moved(q, GetCall(q), 0, 0, 0, 1) && GetCall(q).vpc == q.vpc
  {}

  lemma TakeCounts(q: Sys)
    ensures Moved(q, TakeCall(q), 0, 1, 0, 0) && TakeCall(q).dpc == q.dpc
  {}

  lemma GiveCounts(q: Sys, head: nat, len: nat)
    ensures Moved(q, GiveCall(q, head, len), 0, 0, 1, 0) && GiveCall(q, head, len).dpc == q.dpc
  {}

  ghost predicate Counts(q: Sys, pub: nat, taken: nat, ret: nat, recl: nat) {
    q.h.pub == pub && q.h.taken == taken && q.h.ret == ret && q.h.recl == recl && q.dpc.DIdle? && q.vpc.VIdle?
  }

  /** The master posts the only receive buffer and sets DRIVER_OK. */
  lemma Posted(s: Setup) returns (t: Chan)
    requires SetupOk(s) && s.n0 == 1 && BUFFER_SIZE <= s.size
    ensures Along(true, Start(s), t) && t.ready && t.mRx.NoRx? && Counts(t.rxq, 1, 0, 0, 0)
  {
    var t0 := Start(s);
    StartInv(s);
    Begin(true, t0);
    var t1 := PostCall(t0, t0);
    AddCounts(t0.rxq, PoolPtr(t0.pool), BUFFER_SIZE);
    t := ReadyCall(t0, t1);
  }

  /** The remote sends in it. */
  lemma SentIn(t: Chan, m: Msg) returns (t': Chan)
    requires Sound(t) && t.ready && t.mRx.NoRx? && Counts(t.rxq, 1, 0, 0, 0) && |m.data| <= PAYLOAD_MAX
    ensures Along(false, t, t') && t'.ready && t'.mRx.NoRx? && Counts(t'.rxq, 1, 1, 1, 0)
  {
    Begin(false, t);
    var t1 := RTakeCall(t, t);
    var c := t.rxq.h.added[t.rxq.h.taken];
    var t2 := RWriteCall(t, t1, c.idxs[0], m);
    t' := REnqueueCall(t, t2, c.idxs[0], c.cookie, m);
    TakeCounts(t.rxq);
    GiveCounts(t2.rxq, c.idxs[0], BUFFER_SIZE);
  }

  /** The master receives it and returns the buffer. */
  lemma GivenBack(t: Chan) returns (t': Chan)
    requires Sound(t) && t.ready && t.mRx.NoRx? && Counts(t.rxq, 1, 1, 1, 0)
    ensures Along(true, t, t') && t'.ready && Counts(t'.rxq, 2, 1, 1, 1)
  {
    Begin(true, t);
    var t1 := RxTakeCall(t, t);
    var t2 := ReadCall(t, t1);
    t' := ReturnCall(t, t2);
    GetCounts(t.rxq);
    AddCounts(t2.rxq, t2.mRx.buf, t2.mRx.len);
  }

  /** A run in which the size check passes every size, because nothing is offered, and the take that
      follows it finds a buffer: with a receive ring of one entry the remote checks just before the
      master returns the only buffer. */
  lemma CheckThenTake(s: Setup) returns (posted: Chan, checked: Chan, returned: Chan, taken: Chan)
    requires SetupOk(s) && s.n0 == 1 && BUFFER_SIZE <= s.size
    ensures Reaches(true, Start(s), posted) && Reaches(false, posted, checked)
    ensures Reaches(true, checked, returned) && Reaches(false, returned, taken)
    ensures forall size: nat :: PassesCheck(RemoteLimit(checked), size)
    ensures exists head: nat :: head in taken.rTx && taken.rTx[head].tx.Blank? && taken.rTx[head].len == BUFFER_SIZE
  {
    posted := Posted(s);
    checked := SentIn(posted, Msg(0, 0, []));
    LimitMeans(checked);
    returned := GivenBack(checked);
    Begin(false, returned);
    taken := RTakeCall(returned, returned);
    var head := returned.rxq.h.added[returned.rxq.h.taken].idxs[0];
    assert head in taken.rTx && taken.rTx[head].tx.Blank? && taken.rTx[head].len == BUFFER_SIZE;
  }
}
