# OpenAMP in Dafny

OpenAMP lets two processors exchange messages through shared memory. This project models the four
parts of it whose correctness is not visible from any one function, and proves what they promise.

- **Split virtqueue** (`QueueState`, `QueueInvariant`, `QueueTheorems`, `QueueAsserts`, `QueueNotify`, `QueueBlind`,
  `Virtqueue`, `QueueLayout`).
  A driver (the master) and a device (the slave) share a descriptor table and two rings indexed by
  16-bit counters. `QueueState` is the protocol as a state machine: one event for each point at which
  the other processor may interleave, with publishing split into "write the slot" and "bump the
  index", and looking split into "read the index" and "use the entry". Unbounded counters and logs
  (added, published, taken, returned, reclaimed) are history fields that no operation reads.
  `Virtqueue` holds the operations in place, on arrays and fields; every method is shown to take
  exactly the steps of the machine.
- **RPMsg transport** (`RpState`, `RpInvariant`, `RpSteps`, `RpTheorems`, `RpConservation`, `RpWakeups`,
  `RpCalls`, `RpKicks`, `RpWaits`, `RpmsgShared`, `RpmsgMaster`, `RpmsgRemote`). Two virtqueues, a buffer pool, buffer memory, senders and receive
  loops on both processors. `RpState` interleaves the two sides at the granularity of virtqueue
  steps; `RpmsgMaster` and `RpmsgRemote` are the calls in place (filling the receive queue, sending,
  the receive loop), each shown to be a run of its own side's steps.
- **Endpoint registry and name-service binding** (`Registry`, `Binding`, `RpmsgErrors`, `RpmsgEndpoint`,
  `RpmsgDevice`). The address bitmap and the endpoint list as values and as objects updated in place.
  `Binding` has the runs: each locked section is one step, and so is each part of a call that works
  without the lock, so that a message or an announcement may come between the registration of an
  endpoint and the failure of its own announcement, or between the lookup of an endpoint and its binding.
- **Streaming ELF loader and its driver loop** (`ElfFormat`, `ElfEncode`, `ElfState`, `ElfParse`, `ElfLoader`,
  `ImageTable`, `HeaderLoop`, `SegmentCursor`, `Placement`, `Remoteproc`, `Samples`). A resumable parser that asks for windows of the image, and the loops of
  `remoteproc_load` that feed it and place the segments.

`Bits`, `Counting` and `Wrappers` hold the 16-bit, mask and counting facts and the option type that the
others need.

Two ways of stating invariants recur. `Inv`, `TInv` and `Agrees` say what holds in every reachable
state of the virtqueue, the transport and the registry. `Sound(t)` is `TInv(t)` behind a quantifier,
so that callers pass it on without unfolding it (`InfoOk` does the same for the ELF record); `Along(side, t0, t)` adds that one side alone can
take the transport from `t0` to `t`. For objects, `Matches(q)` says that the fields and arrays of one
side hold the machine state `q`.

Where the code differs from its documentation, or from what one would expect, the model follows the
code and the difference is a theorem:

- A waiting master does not wait. `lib/include/openamp/rpmsg.h:141-143` promises to block for up to 15
  seconds; the master's size limit is never 0, so its first unsuccessful poll returns
  `RPMSG_ERR_BUFF_SIZE` (`RpmsgShared.RetryLoop`, `RpmsgMaster.RpmsgMaster.Send`, with a first send that
  does in `RpmsgMaster.WaitingSendGivesUp`).
- The master's send has no test for a full ring. No send ever meets one if and only if the pool is
  smaller than one buffer more than both rings hold (`RpTheorems.NeverFullExactly`, with a run that
  overflows otherwise).
- On the remote the size test is meaningless when no buffer is offered at that moment
  (`RpTheorems.SizeCheckExact`), and a buffer may arrive before the take that follows
  (`RpWaits.CheckThenTake`).
- The transport never enables callbacks, so with event indices a receiver is notified only when the
  number of messages passes a multiple of 65536 (`RpWakeups.SendNotifies`); the second message to an
  idle remote already goes unnoticed (`RpWakeups.SecondSendIsSilent`). Returned buffers are not
  notified at all in flag mode, and once in 65536 with event indices (`RpWakeups.ReturnNotifies`).
- An endpoint is listed, and can be bound, while its announcement is still being sent. If that fails,
  it is withdrawn and its binding lost (`Binding.BoundThenWithdrawn`); what is left otherwise is exactly
  what the events in between have made (`Binding.FailedCreateLeaves`).
- `vq_queued_cnt` has 16 bits: the kick's test is right for every event index if and only if fewer
  than 65536 entries were published since the previous kick (`QueueNotify.KickExactIff`, with a run
  that reaches a silent kick in `QueueBlind.BlindKick`).
- The 8-bit segment cursor makes the data loop run for ever on some program header tables of more than
  255 entries; `SegmentCursor.LoopEndsExactly` says for every table and every store whether it ends, and
  `Samples.EndlessLoad` is an image on which it does not.
- A trailing program header that is not loadable must be mapped, or loading fails (`Remoteproc.Load`, with
  an image that fails for that reason only in `Samples.TrailingNote`).
- If the first window has four bytes, the class of the image is read behind it. The image still loads
  whenever it has the bytes of a header of that class (`Remoteproc.Load`, `Samples.FourByteWindow`).
- Loading can fail with result 0: exactly if the request that ended it was answered with zero bytes
  (`Remoteproc.Load`, with an input in `Remoteproc.FailsWithZeroExample`).
- The loader steps through the program headers by the size of its own structure, not by the entry size
  that the ELF header states. It reads inside its copied table if and only if that entry size is not
  smaller (`ImageTable.ReadsInside`), and reads the entries of the ABI if and only if the two sizes are
  equal or there is at most one entry (`ImageTable.AbiExactly`).
- The device's index test is `>`; an index equal to the ring size passes it and is published, but no
  head that the device holds has that value (`Virtqueue.Virtqueue.AddConsumedBuffer`, `QueueTheorems.InBounds`).
- `vring_size` is large enough if and only if the base is off its alignment by no more than the rounding
  gap before the used ring (`QueueLayout.BlockFitsExactly`).

## Model

| member | source | states |
|---|---|---|
| `QueueInvariant.StepInv` | lib/virtio/virtqueue.c:107-366 | every legal step of either processor, in any state, keeps the protocol invariant (shape, counters, stages, free list, chains, places, slots) |
| `QueueInvariant.RunInv` | lib/virtio/virtqueue.c:107-366 | the invariant holds in every state of every interleaving that starts from a fresh queue |
| `QueueInvariant.InitInv` | lib/virtio/virtqueue.c:508-527 | the freshly threaded table and zeroed rings satisfy it |
| `QueueInvariant.Window` | lib/virtio/virtqueue.c:177-183 | reclaimed <= returned <= return slots written <= taken <= published <= added <= reclaimed + n in every good state |
| `QueueInvariant.LiveCount` | lib/virtio/virtqueue.c:137-138 | the number of live chains is added minus reclaimed |
| `QueueInvariant.FillMeans` | lib/virtio/virtqueue.c:426-460 | filling from the free list writes buffer i into free entry i, with flag 1 exactly if another follows, flag 2 exactly if it is not readable and no other, leaves all links and all other descriptors alone and ends at the first unused free entry |
| `QueueInvariant.AddWriteInv` | lib/virtio/virtqueue.c:107-154 | adding a chain of any length keeps the invariant |
| `QueueInvariant.ReclaimInv` | lib/virtio/virtqueue.c:171-201 | collecting a used element and freeing its whole chain keeps the invariant |
| `QueueInvariant.RetWriteInv` | lib/virtio/virtqueue.c:270-285 | returning any held head, in any order, keeps the invariant |
| `QueueInvariant.TailMeans` | lib/virtio/virtqueue.c:483-489 | following the next flags of a live chain ends at its last descriptor after length - 1 links |
| `QueueInvariant.NextUsedMeans` | lib/virtio/virtqueue.c:183-190 | the element read next is the head and length of the chain returned at that place, and its cookie is that chain's |
| `QueueInvariant.NextAvailMeans` | lib/virtio/virtqueue.c:250-254 | the head read next is the first descriptor of the chain added at that place, which is live |
| `QueueTheorems.Partition` | lib/virtio/virtqueue.c:426-527 | the free list followed from the head index visits exactly free-count distinct entries and ends at 32768; live chains are pairwise disjoint, disjoint from it, and together they cover the table |
| `QueueTheorems.InBounds` | lib/virtio/virtqueue.c:276-280 | every index that either side reads from memory is inside the table; the head is 32768 exactly when nothing is free |
| `QueueAsserts.RunCookies` | lib/virtio/virtqueue.c:127-137 | in every state of every run only the first descriptors of live chains have a cookie |
| `QueueAsserts.WholeChainFreed` | lib/virtio/virtqueue.c:480-492 | freeing the next returned chain counts its descriptors down to zero |
| `QueueAsserts.AssertionsHold` | lib/virtio/virtqueue.c:125-148 | the assertions of a debug build hold in every state of every run: valid head without a cookie or the end mark, valid descriptors for every add with room, valid next fields at each link that the freeing loop follows and a zero count at its end, and neither ring fuller than n |
| `QueueAsserts.LinksValid` | lib/virtio/virtqueue.c:483-489 | following the next fields from the returned head, each descriptor is inside the table, and has the next flag exactly until the last |
| `QueueTheorems.IndicesExact` | lib/virtio/virtqueue.c:177-246 | the 16-bit equality tests and differences agree with the unbounded counters |
| `QueueTheorems.SlotsExact` | lib/virtio/virtqueue.c:545-546 | `idx & (n - 1)` is the unbounded counter modulo n, for all four indices, across wrap-around |
| `QueueTheorems.UnreadSlotsStable` | lib/virtio/virtqueue.c:545-550 | over any run no available slot changes between its write and its take, and no used slot between its write and its collection, and what they hold is the head, or the head and length, of that chain |
| `QueueTheorems.Refines` | lib/virtio/virtqueue.c:107-297 | every step, seen as a pair of FIFO queues (offered chains, finished chains), is a push, a pop or nothing |
| `QueueTheorems.DeviceReadsFront` | lib/virtio/virtqueue.c:237-258 | the device sees "nothing" exactly if no chain is offered, otherwise the head, address and length of the oldest one |
| `QueueTheorems.DriverReadsFront` | lib/virtio/virtqueue.c:171-201 | the driver sees "nothing" exactly if no chain is finished, otherwise the cookie and length of the oldest one |
| `QueueTheorems.RunGrows` | lib/virtio/virtqueue.c:107-297 | logs of added, returned and given lengths only grow along a run |
| `QueueTheorems.ChainStable` | lib/virtio/virtqueue.c:127-154 | from add to reclaim every descriptor of a chain keeps the address and length the driver was given; its flags have bit 1 exactly if another descriptor follows, bit 2 exactly if it is not among the readable ones, and no other bit |
| `QueueTheorems.CookieRoundTrip` | lib/virtio/virtqueue.c:187-196 | over any run, for any completion order, the k-th collected cookie and length are those of the k-th returned chain; a chain is collected at most once, and exactly if it is no longer live |
| `QueueTheorems.CollectedInOrder` | lib/virtio/virtqueue.c:171-201 | the collected pairs are the returned chains in order of return |
| `QueueTheorems.ReclaimedOnce` | lib/virtio/virtqueue.c:171-201 | no chain is returned twice, and the chains no longer live are exactly the collected ones |
| `QueueTheorems.LiveStep` | lib/virtio/virtqueue.c:107-201 | a step changes which chains are live only by adding one or by collecting the oldest returned one |
| `QueueTheorems.HeldStep` | lib/virtio/virtqueue.c:237-297 | a step changes what the device holds only by the take of the next head or the return of one |
| `QueueTheorems.HeldChain` | lib/virtio/virtqueue.c:270-297 | a held head is the first descriptor of its live chain |
| `QueueNotify.NeedEventExact` | lib/include/openamp/virtio_ring.h:150-155 | the three-subtraction test holds if and only if the event index is the 16-bit value of a count in [old, new), for counts less than a turn apart |
| `QueueNotify.KickExact` | lib/virtio/virtqueue.c:635-652 | in both directions a kick notifies if and only if the peer's event index was crossed since the previous kick |
| `QueueNotify.KickExactInRuns` | lib/virtio/virtqueue.c:353-366 | the same for every kick of every run |
| `QueueNotify.KickExactIff` | lib/virtio/virtqueue.c:635-652 | the test with its 16-bit queued count is right for every event index if and only if fewer than 65536 entries were published since the previous kick |
| `QueueNotify.KickBlindAfterFullTurn` | lib/virtio/virtqueue.c:291-292 | after exactly 65536 unannounced publishes every event index was crossed and the kick is silent |
| `QueueBlind.BlindKick` | lib/virtio/virtqueue.c:291-292 | for every ring size and both directions, a run that ends in a silent kick although the event index was crossed |
| `QueueNotify.RunNotifyInv` | lib/virtio/virtqueue.c:353-366 | in every state of every run the queued count is the number of publishes since the last kick modulo 65536, and a side between arming and checking is armed at its own count |
| `QueueNotify.NoLostWakeup` | lib/virtio/virtqueue.c:561-668 | if enabling callbacks answers 0, the peer's first kick after its next publish notifies: both directions, both modes, every interleaving of write-event and read-index with publish and read-event |
| `QueueNotify.SuppressionBound` | lib/virtio/virtqueue.c:317-344 | after disabling at count c: in flag mode no kick notifies; in event-index mode a kick whose predecessor lies in [c - n, c + 65535 - n] notifies if and only if its count exceeds c + 65535 - n |
| `QueueNotify.SuppressionPersists` | lib/virtio/virtqueue.c:317-344 | if the peer's last kick was at least c - n when callbacks were disabled, no kick notifies up to count c + 65535 - n |
| `QueueNotify.DisabledKick` | lib/virtio/virtqueue.c:317-344 | while callbacks stay disabled since count c: no notification in flag mode; with event indices exactly if a count equal to c - n - 1 modulo 65536 was passed since the previous kick |
| `QueueNotify.UntouchedKick` | lib/virtio/virtqueue.c:631-668 | while a consumer has never enabled or disabled callbacks, a kick notifies always in flag mode, and with event indices exactly if its count passed a multiple of 65536 |
| `Virtqueue.Vring.constructor` | lib/virtio/virtio.c:109-113 | ring memory starts zeroed |
| `Virtqueue.Virtqueue.constructor` | lib/virtio/virtqueue.c:508-527 | the loop threads the free list from entry 0 to the end mark 32768, so that the master's queue is the initial state of the machine; a slave leaves the ring alone |
| `Virtqueue.Virtqueue.RingAddBuffer` | lib/virtio/virtqueue.c:426-460 | the in-place loop computes the descriptor table and the next free index of the filling function: each buffer's address, length, flag bits and link in its descriptor |
| `Virtqueue.Virtqueue.AddInPlace` | lib/virtio/virtqueue.c:128-154 | the complete new ring and driver state after an add, with each descriptor's flag bits |
| `Virtqueue.Virtqueue.AddBuffer` | lib/virtio/virtqueue.c:107-160 | adding takes the machine's two steps, write and bump, and touches nothing else; each descriptor has the bits that say whether another follows and whether the device may write |
| `Virtqueue.Virtqueue.UpdateAvail` | lib/virtio/virtqueue.c:534-554 | the head goes to the masked slot, then the index and the queued count are bumped modulo 65536 |
| `Virtqueue.Virtqueue.LastOfChain` | lib/virtio/virtqueue.c:483-489 | the link-following loop ends and finds the last descriptor of a chain |
| `Virtqueue.Virtqueue.FreeChainInPlace` | lib/virtio/virtqueue.c:467-501 | freeing links the whole chain in front of the free list |
| `Virtqueue.Virtqueue.CollectInPlace` | lib/virtio/virtqueue.c:181-196 | the complete new state after collecting one used element, and the values handed out |
| `Virtqueue.Virtqueue.GetBuffer` | lib/virtio/virtqueue.c:171-201 | NULL exactly if nothing was returned; otherwise cookie, length and slot of the oldest returned chain, and the machine's two steps |
| `Virtqueue.Virtqueue.GetAvailableBuffer` | lib/virtio/virtqueue.c:237-258 | found exactly if a chain is published and not taken; then its head, address and length, and the head is held |
| `Virtqueue.Virtqueue.AddConsumedBuffer` | lib/virtio/virtqueue.c:270-297 | error and no change for an index above n; any other index, n included, is published with its length |
| `Virtqueue.Virtqueue.GetDescSize` | lib/virtio/virtqueue.c:396-418 | length of the oldest offered buffer, 0 exactly if none is offered |
| `Virtqueue.Virtqueue.Kick` | lib/virtio/virtqueue.c:353-366 | notifies exactly if the machine's test holds and clears the queued count |
| `Virtqueue.Virtqueue.EnableCb` | lib/virtio/virtqueue.c:561-612 | arms and answers 1 exactly if there is unconsumed work |
| `Virtqueue.Virtqueue.DisableCb` | lib/virtio/virtqueue.c:317-344 | takes the machine's disarm step for its role and mode |
| `QueueLayout.MaskUpRounds` | lib/include/openamp/virtio_ring.h:125 | the mask form is a multiple of the alignment, not below its argument and less than one step above |
| `QueueLayout.MaskUpIsLeast` | lib/include/openamp/virtio_ring.h:125 | hence it is the least such multiple: arithmetic rounding up |
| `QueueLayout.LayoutFits` | lib/include/openamp/virtio_ring.h:118-141 | at an aligned base the table, the available ring with its event index and the used ring with its event index follow without overlap and fill exactly vring_size bytes, for every number of entries |
| `QueueLayout.BlockFitsExactly` | lib/include/openamp/virtio_ring.h:118-141 | at any base the rings stay inside vring_size bytes if and only if the base is off its alignment by no more than the rounding gap, for every number of entries, alignment and word size |
| `QueueLayout.UnalignedBaseOverruns` | lib/include/openamp/virtio_ring.h:118-141 | for one entry and every alignment from 32 bytes on, an unaligned base at which the rings fit and one at which they end 23 bytes beyond vring_size |
| `QueueLayout.SizeInBytes` | lib/include/openamp/virtio_ring.h:118-141 | vring_size and every offset as numbers of bytes in the number of entries and the alignment |
| `QueueLayout.KnownSizes` | lib/include/openamp/virtio_ring.h:118-130 | 10246 bytes for 256 entries and 4110 for one, at an alignment of 4096 |
| `RpInvariant.RingsNeverFull` | lib/rpmsg/rpmsg_virtio.c:63-124 | in every good state each enqueue that the transport may make next finds room: returns always, sends if the pool fits |
| `RpSteps.TStep` | lib/rpmsg/rpmsg_virtio.c:63-431 | every step of either side keeps the transport's invariant |
| `RpSteps.MessageRoundTrip` | lib/rpmsg/rpmsg_virtio.c:329-345 | header then payload written into any buffer read back as the message, for payloads up to 496 |
| `RpSteps.MessageFields` | lib/rpmsg/rpmsg_virtio.c:329-345 | which field of the buffer holds source, destination, length and payload after a send |
| `RpSteps.FreshBuffer` | lib/rpmsg/rpmsg_virtio.c:27-39 | a buffer from the pool is none of those handed out before |
| `RpTheorems.RunStateInv` | lib/rpmsg/rpmsg_virtio.c:63-431 | the invariant holds in every state of every interleaving of a setup whose pool fits |
| `RpTheorems.RoomyRunInv` | lib/rpmsg/rpmsg_virtio.c:63-431 | for every pool size the invariant holds in every state of a run until a send meets a full ring |
| `RpTheorems.FifoUntilFull` | lib/rpmsg/rpmsg_virtio.c:277-431 | for every pool size, FIFO delivery in both directions until a send meets a full ring |
| `RpTheorems.FifoDelivery` | lib/rpmsg/rpmsg_virtio.c:277-431 | in each direction the messages (source, destination, length, payload) seen by the receive loop are a prefix of those enqueued by the sender |
| `RpTheorems.DrainedMeansDelivered` | lib/rpmsg/rpmsg_virtio.c:380-431 | when a queue is drained and its last buffer looked at, everything sent has been received |
| `RpConservation.Conservation` | lib/rpmsg/rpmsg_virtio.c:27-161 | every buffer that has left the pool is in exactly one of eight places (hands of the senders and receive loop of the master and of the remote, offered or finished on either queue), and the counts add up |
| `RpConservation.ConservationInRuns` | lib/rpmsg/rpmsg_virtio.c:27-161 | the same in every state of every run |
| `RpConservation.RemoteTxIsTaken` | lib/rpmsg/rpmsg_virtio.c:155-158 | what the remote's senders hold is exactly what it has taken from the receive queue and not returned |
| `RpConservation.RemoteRxIsTaken` | lib/rpmsg/rpmsg_virtio.c:187-193 | what the remote's receive loop holds is exactly what it has taken from the send queue and not returned |
| `RpTheorems.BuffersApart` | lib/rpmsg/rpmsg_virtio.c:27-39 | different pool buffers do not overlap and lie inside the pool |
| `RpTheorems.LengthsConstant` | lib/rpmsg/rpmsg_virtio.c:230-261 | through any recirculation all descriptor and used lengths stay 512, so the remote's limit is 0 without a buffer and 496 with one |
| `RpTheorems.FlagsConstant` | lib/rpmsg/rpmsg_virtio.c:63-124 | every live send descriptor has flags 0 (readable, unchained) and every live receive descriptor flags 2 (writable, unchained) |
| `RpTheorems.FlagsInRuns` | lib/rpmsg/rpmsg_virtio.c:63-124 | the same in every state of every run |
| `RpTheorems.SizeCheckExact` | lib/rpmsg/rpmsg_virtio.c:310-314 | on the master the size test lets a size through if and only if header and payload fit; on the remote it protects all sizes if and only if a buffer is offered at that moment |
| `RpTheorems.NeverFullExactly` | lib/rpmsg/rpmsg_virtio.c:604-627 | no run reaches a send on a full ring if and only if the pool is smaller than (entries of both rings + 1) buffers |
| `RpTheorems.FillBothRings` | lib/rpmsg/rpmsg_virtio.c:100-124 | with a larger pool, a run that reaches a send on a full ring |
| `RpWakeups.SendNotifies` | lib/rpmsg/rpmsg_virtio.c:584-588 | in every run, whichever sides have started, a kick for sends, of either side, notifies always in flag mode, and with event indices exactly if the number of messages passed a multiple of 65536 since the previous kick |
| `RpWakeups.ReturnNotifies` | lib/rpmsg/rpmsg_virtio.c:584-588 | in every run, after a side has started: the peer's kick for returned buffers never notifies in flag mode, and with event indices exactly if the number of returned buffers passed one value modulo 65536 |
| `RpWakeups.SecondSendIsSilent` | lib/rpmsg/rpmsg_virtio.c:346-353 | with event indices and both sides started, a run in which the first send notifies and is received, and the second notifies nobody |
| `RpWakeups.RunNotify` | lib/rpmsg/rpmsg_virtio.c:346-353 | in every state of every run, on both queues and in both directions, the queued count is the number of entries since the last kick |
| `RpKicks.KickMeans` | lib/virtio/virtqueue.c:353-366 | a kick announces all that was published since the last one, and notifies exactly if the peer's event index was passed, or without event indices if the peer has not suppressed it |
| `RpWaits.RemoteWaits` | lib/rpmsg/rpmsg_virtio.c:299-328 | the remote's retry loop in any run, whatever the master does meanwhile: each result if and only if its condition on the last poll holds |
| `RpWaits.OfferPersists` | lib/rpmsg/rpmsg_virtio.c:308-316 | in any run an offered buffer stays offered until the remote takes one |
| `RpWaits.CheckThenTake` | lib/rpmsg/rpmsg_virtio.c:310-316 | a run in which the remote's size check passes every size and the take that follows finds a buffer |
| `RpCalls.PostCall` | lib/rpmsg/rpmsg_virtio.c:604-627 | posting one receive buffer is two steps of the master, finds room, and leaves exactly this state |
| `RpCalls.TxReclaimCall` | lib/rpmsg/rpmsg_virtio.c:145-146 | taking back a finished send buffer puts it, with length 512, into a sender's hand |
| `RpCalls.TxPoolCall` | lib/rpmsg/rpmsg_virtio.c:147-151 | without a finished one a pool buffer is taken |
| `RpCalls.TxNoneCall` | lib/rpmsg/rpmsg_virtio.c:145-151 | with neither, only the fact of having looked is recorded |
| `RpCalls.EnqueueCall` | lib/rpmsg/rpmsg_virtio.c:100-124 | the master's enqueue finds room and appends the message to the send log |
| `RpCalls.ReadCall` | lib/rpmsg/rpmsg_virtio.c:398-415 | the buffer the master's loop looks at holds the message sent at that place of the order |
| `RpCalls.ReturnCall` | lib/rpmsg/rpmsg_virtio.c:63-88 | the master's return finds room in the receive ring |
| `RpCalls.RTakeCall` | lib/rpmsg/rpmsg_virtio.c:155-158 | the remote's send path gets the oldest offered buffer, of full length |
| `RpCalls.REnqueueCall` | lib/rpmsg/rpmsg_virtio.c:118-121 | the remote's enqueue returns a head it holds and appends the message to the send log |
| `RpCalls.RReadCall` | lib/rpmsg/rpmsg_virtio.c:398-415 | the buffer the remote's loop looks at holds the message sent at that place of the order |
| `RpCalls.RReturnCall` | lib/rpmsg/rpmsg_virtio.c:82-87 | the remote's return gives back a head it holds |
| `RpmsgShared.ShmPool.constructor` | lib/rpmsg/rpmsg_virtio.c:42-50 | a pool starts with its whole region unused |
| `RpmsgShared.ShmPool.GetBuffer` | lib/rpmsg/rpmsg_virtio.c:27-39 | NULL and no change if too little is left, otherwise the next bytes of the region |
| `RpmsgShared.RetryLoop` | lib/rpmsg/rpmsg_virtio.c:299-328 | over any sequence of poll results it stops at the first decisive poll or when time is up, at most 15001 polls, and that poll decides the result; with a limit that is not 0 it polls once |
| `RpmsgMaster.RpmsgMaster.PostBuffer` | lib/rpmsg/rpmsg_virtio.c:605-626 | one round of the posting loop: no-buffer error and no change, or the cleared buffer is on the receive queue |
| `RpmsgMaster.RpmsgMaster.FillReceiveQueue` | lib/rpmsg/rpmsg_virtio.c:598-629 | the loop fills every entry, and succeeds exactly if the pool holds that many buffers |
| `RpmsgMaster.RpmsgMaster.InitVdev` | lib/rpmsg/rpmsg_virtio.c:585-648 | DRIVER_OK is set exactly if filling succeeds; send interrupts are suppressed |
| `RpmsgMaster.RpmsgMaster.GetTxBuffer` | lib/rpmsg/rpmsg_virtio.c:137-161 | the oldest finished send buffer, else a pool buffer, else NULL, always with length 512 |
| `RpmsgMaster.RpmsgMaster.AwaitBuffer` | lib/rpmsg/rpmsg_virtio.c:304-326 | the master's round of the retry loop: which error in which case, and otherwise a blank buffer in hand |
| `RpmsgMaster.RpmsgMaster.EnqueueBuffer` | lib/rpmsg/rpmsg_virtio.c:100-124 | the buffer is added, readable, to the send queue |
| `RpmsgMaster.RpmsgMaster.ReturnBuffer` | lib/rpmsg/rpmsg_virtio.c:63-88 | the buffer is added, writable, to the receive queue |
| `RpmsgMaster.RpmsgMaster.Send` | lib/rpmsg/rpmsg_virtio.c:277-356 | the result in every case; nothing changes on an error, otherwise exactly this message is appended to the send log, by a run of master steps; a finished buffer is used before the pool is asked; a successful send ends with a kick that announces everything published and notifies exactly as the remote wished |
| `RpmsgMaster.RpmsgMaster.GetRxBuffer` | lib/rpmsg/rpmsg_virtio.c:175-195 | NULL exactly if nothing was returned, otherwise the oldest returned buffer with length 512 |
| `RpmsgMaster.RpmsgMaster.RxCallback` | lib/rpmsg/rpmsg_virtio.c:380-431 | the loop ends and delivers, in order and each once, exactly the messages returned and not yet taken; all buffers are back on the receive queue; one kick at the end exactly if there was a message |
| `RpmsgMaster.WaitingSendGivesUp` | lib/rpmsg/rpmsg_virtio.c:299-328 | for every setup whose pool holds exactly one buffer for each receive entry: the master starts, and its first waiting send of any message that fits returns the size error |
| `RpmsgMaster.CreateMaster` | lib/rpmsg/rpmsg_virtio.c:578-582 | fresh queues, pool and memory hold the start of a run |
| `RpmsgRemote.RpmsgRemote.InitVdev` | lib/rpmsg/rpmsg_virtio.c:584-588 | the remote's start, once DRIVER_OK is set: callbacks of its send queue are disabled, by one remote step, and nothing else changes |
| `RpmsgRemote.RpmsgRemote.GetBufferSize` | lib/rpmsg/rpmsg_virtio.c:245-258 | 496 if a buffer is offered, otherwise 0 |
| `RpmsgRemote.RpmsgRemote.GetTxBuffer` | lib/rpmsg/rpmsg_virtio.c:155-158 | the oldest offered buffer with its head, found exactly if one is offered |
| `RpmsgRemote.RpmsgRemote.AwaitBuffer` | lib/rpmsg/rpmsg_virtio.c:299-328 | the retry loop with a quiet master: no-buffer error exactly if none is offered, after 15001 polls if it is to wait; size error exactly if it would not fit |
| `RpmsgRemote.RpmsgRemote.Send` | lib/rpmsg/rpmsg_virtio.c:277-356 | the result in every case; nothing changes on an error, otherwise exactly this message is appended to the send log, by a run of remote steps; a successful send ends with a kick that announces everything returned and notifies exactly as the master wished |
| `RpmsgRemote.RpmsgRemote.RxCallback` | lib/rpmsg/rpmsg_virtio.c:380-431 | the loop ends and delivers, in order and each once, exactly the messages published and not yet taken; all buffers are back with the master; one kick at the end exactly if there was a message |
| `Registry.NextClear` | lib/rpmsg/rpmsg.c:25-38 | the first clear bit from a position on, or the size if there is none |
| `Registry.CNameMeans` | lib/rpmsg/rpmsg.c:164-167 | names are compared and copied up to the first NUL, at most 32 characters |
| `Registry.Find` | lib/rpmsg/rpmsg.c:147-178 | the first endpoint in list order that matches, and none before it does |
| `Registry.UnregisterAgrees` | lib/rpmsg/rpmsg.c:180-191 | unregistering removes exactly that endpoint and clears exactly its bit, and keeps bitmap and list in agreement |
| `Registry.RegisterCases` | lib/rpmsg/rpmsg.c:210-239 | both outcomes of the locked section of a create: refused with which error and no change, or listed with which address and bit |
| `Registry.RegisterAgrees` | lib/rpmsg/rpmsg.c:210-239 | registering keeps agreement; it succeeds exactly if an address can be granted, a requested one as it is, otherwise the lowest free dynamic one, and unregistering at once restores the registry |
| `Registry.CreateAgrees` | lib/rpmsg/rpmsg.c:200-253 | an undisturbed create succeeds exactly if an address can be granted and a needed announcement is sent; a failed one leaves the registry as it was, with which error |
| `Registry.RebindAgrees` | lib/rpmsg/rpmsg_virtio.c:401-411 | changing a remote address keeps agreement |
| `Registry.BindFirstAgrees` | lib/rpmsg/rpmsg_virtio.c:404-411 | binding by a first message keeps agreement |
| `Registry.RoutingExact` | lib/rpmsg/rpmsg_virtio.c:401-411 | a message goes to an endpoint with its destination if and only if there is one, the only one if the address is dynamic, and to none for the "any" address |
| `Registry.ReceiveExact` | lib/rpmsg/rpmsg_virtio.c:398-411 | a message gives the first endpoint with its destination the source as remote exactly if it had none; nothing else changes |
| `Registry.AnnounceExact` | lib/rpmsg/rpmsg_virtio.c:461-494 | an announcement of 40 bytes unbinds or binds the first endpoint that has the name and is bound to the remote or to none; nothing else changes; any other size does nothing |
| `Binding.DecideExact` | lib/rpmsg/rpmsg.c:241-244 | an endpoint is announced exactly if it has a name, the device supports names and it has not been bound since it was listed |
| `Binding.RouteInRun` | lib/rpmsg/rpmsg_virtio.c:400-402 | in every run a message is delivered exactly if an endpoint has its destination, and to such a one |
| `Binding.BindInRun` | lib/rpmsg/rpmsg_virtio.c:404-411 | in every run the binding step gives the endpoint the source as remote exactly if it had none; no other entry and no bit changes |
| `Binding.DestroyUnbinds` | lib/rpmsg/rpmsg_virtio.c:474-478 | in every run a destroy announcement for a bound endpoint that alone has its name unbinds it |
| `Binding.CreateIsSteps` | lib/rpmsg/rpmsg.c:200-253 | the steps of a create, with nothing in between, are the whole call |
| `Binding.ReceiveIsSteps` | lib/rpmsg/rpmsg_virtio.c:398-411 | the lookup and the binding, with nothing in between, are the routing of a message |
| `Binding.EntryStep` | lib/rpmsg/rpmsg.c:180-247 | an event keeps a listed endpoint with its name and address, unless it destroys it or is the failure of its announcement |
| `Binding.RegistryAgreement` | lib/rpmsg/rpmsg.c:25-278 | in every state of every run a bit is set if and only if an endpoint has its address, dynamic addresses are unique, no endpoint has the "any" address, and an endpoint being created is listed |
| `Binding.FailedCreateLeaves` | lib/rpmsg/rpmsg.c:237-247 | whatever happens between registering and the failure of the announcement: the entry removed has the name and address of the registration, nothing else changes, and a dynamic address is free again |
| `Binding.BoundThenWithdrawn` | lib/rpmsg/rpmsg.c:241-247 | a run in which an endpoint is bound while its announcement is being sent, and loses the binding when that fails |
| `Binding.BindingStep` | lib/rpmsg/rpmsg_virtio.c:401-494 | one event keeps a binding unless it destroys the endpoint, is the failure of its announcement, or is a destroy announcement with its name and remote |
| `Binding.BindingSafety` | lib/rpmsg/rpmsg_virtio.c:472-494 | over any run a bound endpoint keeps its remote until such an event, whatever else intervenes |
| `RpmsgDevice.RpmsgDevice.constructor` | lib/rpmsg/rpmsg_virtio.c:632 | an empty list and a clear bitmap |
| `RpmsgDevice.RpmsgDevice.GetEndpoint` | lib/rpmsg/rpmsg.c:147-178 | the list loop returns the endpoint that the search function selects, or null |
| `RpmsgDevice.RpmsgDevice.Unregister` | lib/rpmsg/rpmsg.c:180-191 | in place, exactly the registry's unregister; the device pointer is cleared |
| `RpmsgDevice.RpmsgDevice.ReserveAddress` | lib/rpmsg/rpmsg.c:210-235 | which address is granted and which bit set, or which error and no change; without a request the lowest free one |
| `RpmsgDevice.RpmsgDevice.Register` | lib/rpmsg/rpmsg.c:193-198 | the endpoint is appended and points to the device |
| `RpmsgDevice.RpmsgDevice.Enlist` | lib/rpmsg/rpmsg.c:210-239 | the locked section of a create in place: exactly the registry's register |
| `RpmsgDevice.RpmsgDevice.WantsAnnouncement` | lib/rpmsg/rpmsg.c:241-244 | the unlocked test: exactly whether the endpoint has a name, its device supports names and it is not bound |
| `RpmsgDevice.RpmsgDevice.Conclude` | lib/rpmsg/rpmsg.c:246-248 | after the announcement: unregistered exactly if it failed |
| `RpmsgDevice.RpmsgDevice.CreateEpt` | lib/rpmsg/rpmsg.c:200-253 | in place and undisturbed, exactly the registry's create; on failure the list is the old one |
| `RpmsgDevice.RpmsgDevice.DestroyEpt` | lib/rpmsg/rpmsg.c:263-278 | nothing for an endpoint without a device, otherwise the registry's unregister; announced exactly if it has a device that supports names, a name and a dynamic address |
| `RpmsgDevice.RpmsgDevice.RouteTo` | lib/rpmsg/rpmsg_virtio.c:400-402 | the lookup: null exactly if no endpoint has the address |
| `RpmsgDevice.RpmsgDevice.BindTo` | lib/rpmsg/rpmsg_virtio.c:404-411 | the unlocked binding: the remote address is the source if there was none, else the old one |
| `RpmsgDevice.RpmsgDevice.Receive` | lib/rpmsg/rpmsg_virtio.c:398-415 | null exactly if no endpoint has the address; the one found gets the source as remote if it had none, and no field of any endpoint changes otherwise |
| `RpmsgDevice.RpmsgDevice.Announce` | lib/rpmsg/rpmsg_virtio.c:447-498 | null exactly if the size is wrong or no endpoint is addressed; the one found is unbound or bound to the remote, and no field of any endpoint changes otherwise |
| `RpmsgDevice.RpmsgDevice.Deinit` | lib/rpmsg/rpmsg_virtio.c:653-664 | the teardown loop ends with an empty list, all bits clear and no endpoint attached, after one announcement for each named endpoint with a dynamic address |
| `ElfState.MasksSelectFields` | lib/include/openamp/elf_loader.h:303-309 | each mask of the packed load state selects exactly its own field |
| `ElfState.PackInjective` | lib/include/openamp/elf_loader.h:303-309 | different load states have different packed values |
| `ElfState.HdrBitTest` | lib/remoteproc/elf_loader.c:460-495 | masking the word with one header bit tests for that header phase |
| `ElfState.LoaderBitTest` | lib/remoteproc/elf_loader.c:560-591 | masking the word with one loader bit tests for that loader phase |
| `ElfState.SetHdr` | lib/remoteproc/elf_loader.c:489-527 | clearing under the mask and setting a header phase updates that field only |
| `ElfState.SetLoader` | lib/remoteproc/elf_loader.c:584-612 | clearing under the mask and setting a loader phase updates that field only |
| `ElfState.SetSeg` | lib/remoteproc/elf_loader.c:575-590 | clearing under the mask and setting the cursor keeps its value modulo 256 and the other fields |
| `ElfFormat.FieldPrefix` | lib/remoteproc/elf_loader.c:14-123 | a field read from a prefix that contains it is the field of the whole |
| `ElfFormat.FieldSame` | lib/remoteproc/elf_loader.c:177-214 | a field inside a table is determined by its own bytes |
| `ElfEncode.EhdrRoundTrip` | lib/include/openamp/elf_loader.h:38-72 | an ELF header written field by field in the order of the structure is read back, for both classes |
| `ElfEncode.PhdrRoundTrip` | lib/include/openamp/elf_loader.h:135-156 | a program header written field by field anywhere in a table is read back by elf_parse_segment, for both classes |
| `ElfEncode.ShdrRoundTrip` | lib/include/openamp/elf_loader.h:172-198 | a section header likewise |
| `ElfEncode.ItemReads` | lib/include/openamp/elf_loader.h:17-32 | each little-endian field is read back from its place |
| `ImageTable.ReadsInside` | lib/remoteproc/elf_loader.c:216-301 | all program headers, and all section headers, are read inside the copied table if and only if there are none or the stated entry size is at least that of the structure |
| `ImageTable.EntriesFromImage` | lib/remoteproc/elf_loader.c:216-239 | each entry parsed from such a table is what the image holds at its place |
| `ImageTable.SectionsFromImage` | lib/remoteproc/elf_loader.c:279-301 | each section header parsed from such a table is what the image holds at its place |
| `ImageTable.AllCopied` | lib/remoteproc/elf_loader.c:395-532 | a complete record holds exactly the program headers, section headers and name table of the image |
| `ImageTable.AbiExactly` | lib/remoteproc/elf_loader.c:216-239 | every table is parsed as the ABI says if and only if it has at most one entry or the stated entry size is that of the structure |
| `ElfParse.HeaderCall` | lib/remoteproc/elf_loader.c:395-532 | one call on any true window keeps every copied table equal to its slice of the image, never goes back a phase, and asks for the table of the phase it stops in, which the window does not contain |
| `ElfParse.StuckCall` | lib/remoteproc/elf_loader.c:395-532 | a call that does not advance the phase changes nothing |
| `ElfParse.ExactWindowAdvances` | lib/remoteproc/elf_loader.c:395-532 | a call given exactly the requested table advances the phase or fails |
| `ElfParse.StreamOk` | lib/remoteproc/elf_loader.c:395-532 | for any sequence of true windows what has been copied is right |
| `ElfParse.PhaseMonotone` | lib/remoteproc/elf_loader.c:395-532 | along any sequence of windows the phase never goes backwards |
| `ElfParse.StreamEqualsOneShot` | lib/remoteproc/elf_loader.c:395-532 | a completed streaming parse equals one call on the whole image |
| `ElfLoader.ElfLoader.LoadHeader` | lib/remoteproc/elf_loader.c:395-532 | the operation in place, testing and updating its packed state word by masks, computes the parse step on values |
| `ElfLoader.ElfLoader.LoadProgramHeaders` | lib/remoteproc/elf_loader.c:433-459 | the program header phase and what follows |
| `ElfLoader.ElfLoader.LoadSectionHeaders` | lib/remoteproc/elf_loader.c:460-494 | the section header phase and what follows |
| `ElfLoader.ElfLoader.LoadStringTable` | lib/remoteproc/elf_loader.c:495-531 | the string table phase, with its error case |
| `ElfLoader.ElfLoader.NextLoadSegment` | lib/remoteproc/elf_loader.c:356-375 | the loop finds what the walk over the table finds, out-parameters included |
| `ElfLoader.ElfLoader.Load` | lib/remoteproc/elf_loader.c:556-615 | the operation in place, on its packed state word, computes the data step on values |
| `Placement.TranslationRoundTrip` | lib/remoteproc/remoteproc.c:78-94 | inside a memory the two translations are inverse and keep ranges inside |
| `Placement.FindMem` | lib/remoteproc/remoteproc.c:32-76 | the first memory that holds the range, and none before it does |
| `Placement.TranslateExact` | lib/remoteproc/remoteproc.c:32-94 | the same of the translation that the statements about memory use |
| `Placement.Mmap` | lib/remoteproc/remoteproc.c:342-381 | translated exactly if some memory holds the whole range; then the address is as far from the physical start of the first such memory as the range from its device start |
| `Placement.BytesWritten` | lib/remoteproc/remoteproc.c:541-549 | the bytes written are there and nothing else has changed |
| `Placement.ZerosWritten` | lib/remoteproc/remoteproc.c:551-558 | the range is zero and nothing else has changed |
| `Placement.SegmentBytes` | lib/remoteproc/remoteproc.c:541-558 | each byte after storing a segment: a file byte, a zero, or what was there |
| `Placement.PlacedStays` | lib/remoteproc/remoteproc.c:502-584 | a stored segment that no later one overlaps holds its file bytes and zeros at the end |
| `Placement.LoadableExact` | lib/remoteproc/elf_loader.c:356-375 | the issue order is the loadable entries, ascending, each once |
| `ImageTable.NextInMeans` | lib/remoteproc/elf_loader.c:356-375 | the walk finds the next loadable entry and skips none; past the last one it leaves the last entry's address behind |
| `ImageTable.WalkIsNextIn` | lib/remoteproc/elf_loader.c:356-375 | the walk over the copied bytes is the walk over the image's parsed table |
| `ImageTable.NoHeaderError` | lib/remoteproc/elf_loader.c:395-532 | with tables inside the image no header call fails |
| `HeaderLoop.CallAsks` | lib/remoteproc/remoteproc.c:449-494 | what a header call asks for, and that an exact window advances it |
| `HeaderLoop.LoadHeaders` | lib/remoteproc/remoteproc.c:445-494 | the header loop ends after at most five calls for every image and store; it succeeds with fitting headers in an exact store; it fails with the parser's error or with the store's short answer to a request that the parser made; if it succeeds all headers have been seen, or the next table lies beyond what was read in a store that cannot seek, and only then is it left out |
| `SegmentCursor.CursorFitsExactly` | lib/remoteproc/elf_loader.c:562-590 | the data calls come to an end if and only if the 8-bit cursor fits the table, as long as everything issued can be stored |
| `HeaderLoop.LoadFromFirst` | lib/remoteproc/remoteproc.c:445-494 | the same from a first window of any size with the magic number; after four bytes the header of the class that lies behind them is asked for |
| `SegmentCursor.LoopEndsExactly` | lib/remoteproc/remoteproc.c:506-584 | for every table and every store the segment part of the loop ends if and only if the table has at most 255 entries, or an entry that the cursor visits ends it, or passing the end of the table does |
| `SegmentCursor.RoundsCircle` | lib/remoteproc/remoteproc.c:506-584 | otherwise no round is the last |
| `SegmentCursor.CursorCircles` | lib/remoteproc/elf_loader.c:562-590 | otherwise the cursor wraps and never leaves the table |
| `Remoteproc.StoreSegment` | lib/remoteproc/remoteproc.c:522-558 | stored exactly if a memory holds the range and the store delivers exactly its bytes; each byte then lies where the first such memory has its address, file bytes and then zeros |
| `Remoteproc.AfterStore` | lib/remoteproc/remoteproc.c:522-558 | storing what the walk issued leaves memory and issue order as the table up to the new cursor demands |
| `Remoteproc.LoadNext` | lib/remoteproc/remoteproc.c:506-584 | one round of the data loop while segments remain, for any table, cursor and store: where the cursor goes or that the round is the last, what is stored, and each failure with its result |
| `Remoteproc.FirstRounds` | lib/remoteproc/remoteproc.c:506-584 | after m rounds the loop is going on if and only if the cursor function says so |
| `Remoteproc.LoadReady` | lib/remoteproc/remoteproc.c:502-584 | the segment part of the data loop ends, and leaves everything placed if it succeeds |
| `Remoteproc.LoadPost` | lib/remoteproc/elf_loader.c:591-613 | the header part after the last segment ends, by header phase; with fitting headers in an exact store all headers have then been copied, up to an empty table |
| `Remoteproc.Load` | lib/remoteproc/remoteproc.c:383-584 | success means every loadable segment placed, in table order, each once; for regular segments and fitting headers in an exact store it succeeds if and only if every loadable segment has memory and bytes and a trailing entry is mapped, for a first window of any size; it fails with result 0 if and only if the request that ended it was answered with zero bytes, and for regular segments nothing was stored then; the record handed out has right copies, and all of them if the store can seek or the table ends in a loadable segment |
| `Remoteproc.FailsWithZero` | lib/remoteproc/remoteproc.c:476-488 | for every image: a first window of five bytes and a store that answers with zero bytes make loading fail with result 0 |
| `Remoteproc.FailsWithZeroExample` | lib/remoteproc/remoteproc.c:476-488 | an image for which that happens |
| `Samples.LoadOne` | lib/remoteproc/elf_loader.c:177-214 | for either class, any segment and any memories: an image built from its fields loads exactly if a memory holds its virtual addresses, and its bytes then lie there, whatever the physical address says |
| `Samples.EndlessLoad` | lib/remoteproc/remoteproc.c:506-584 | an image of 257 mapped segments: after any number of rounds the data loop is still going on |
| `Samples.TrailingNote` | lib/remoteproc/elf_loader.c:356-375 | an image that loads if and only if the address of the note behind its last segment is mapped |
| `Samples.FourByteWindow` | lib/remoteproc/elf_loader.c:404-412 | an image of 52 bytes that, opened with four bytes, loads if and only if the byte behind them is not the mark of a 64-bit image |
| `Remoteproc.LoadedImageIsCorrect` | lib/remoteproc/remoteproc.c:502-584 | after success each byte of each loadable segment that no later one overlaps lies where the first memory that holds the segment has its address, file bytes then zeros, and the issued entries are exactly the loadable ones in order |

## Left out

- libmetal (regions, mutexes, lists, bitmaps, fences): addresses in shared memory are numbers, physical and virtual the same; a locked section of the transport is a run of its side's steps, and one of the registry is one step.
- Destroying an endpoint while its own create call is still running: callers may not, since a failing announcement would then follow a cleared device pointer.
- The receive callback's test of the remote address and the assignment that follows it are one step: only the receive loop changes the remote address of a listed endpoint.
- Weak memory: interleaving is sequentially consistent. The driver's descriptor writes and its slot write are one step, before the separate index bump.
- The debug-only checks of virtqueue.c: that an add has room, a cookie and at least one buffer is demanded of callers, and the transport is shown to meet it.
- QueueNotify.KickExact: assumes fewer than 65536 publishes since the previous kick; KickExactIff shows that this is the exact condition.
- QueueNotify.KickExactInRuns: assumes the same of the kick it speaks about.
- QueueNotify.NoLostWakeup: assumes the same of the kick it speaks about.
- QueueNotify.UntouchedKick: assumes the same of the kick it speaks about.
- QueueNotify.SuppressionBound: in event-index mode, assumes the same of the kick it speaks about.
- QueueNotify.DisabledKick: in event-index mode, assumes the same of the kick it speaks about.
- RpWakeups.SendNotifies: assumes the same of the kick it speaks about.
- RpWakeups.ReturnNotifies: in event-index mode, assumes the same of the kick it speaks about.
- RpmsgMaster.RpmsgMaster.Send: with event indices, what it says of notification assumes the same of its kick, and a queued count as in every run (RunNotify).
- RpmsgRemote.RpmsgRemote.Send: with a quiet master, as AwaitBuffer; with event indices, what it says of notification assumes the same.
- Calls with a peer that acts inside them: the in-place calls of the virtqueue and the transport are sequential, so one call sees a quiet peer; interleaving is the subject of the state machines, which split every call into steps.
- RpmsgRemote.RpmsgRemote.AwaitBuffer: with a quiet master; what the loop comes to while the master acts is RemoteWaits.
- Payload size in the state machine: a sender's message has at most 496 bytes; SizeCheckExact says when the code's own test ensures that.
- The flags field of the message header, which the code never sets.
- Name-service messages as transport traffic, callbacks of the application and the argument of the unbind callback; the result of sending an announcement is a parameter.
- Which of several endpoints of the same name an announcement selects, beyond the first match in list order.
- Overflow of size_t and of physical addresses, and allocation failures.
- What lies behind a first window of exactly 4 bytes, where the code reads the ELF class: it is a parameter.
- Remoteproc.Load: assumes that its data loop ends; LoopEndsExactly says for which images and stores it does. It promises nothing about memory for images whose entry size is too small, since the code then reads outside its copied table (the model reads zeros there).
- elf_load's own header branch for a loader that is not ready: remoteproc_load never reaches it.
- The resource table (locating, parsing, copying), the entry point, and the life-cycle states of a remote processor.
- A platform mmap operation as fall-back: a device address without a registered memory is not mapped.
- remoteproc_load_noblock, remoteproc_virtio.c, rsc_table_parser.c: dispatch and register access.
- The system-call proxy, the applications and the board ports.
