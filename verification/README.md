# A verified model of the Tox messaging cores

This project models, in Dafny, the parts of the repository whose correctness is hardest to see from
the code, and proves properties of every run or every input:

* **tox-sequenced**: the selective-repeat transport. `Bits` (the word-level bit set), `Outgoing` (one
  outgoing message), `SendSession` (the session's byte counter), `Contents` and `Reassembly` (the fragments
  of one incoming message), `Delivery` and `ReceiveSession` (at-most-once delivery and memory reservations),
  `Quota` (the shared atomic counter as an interleaving of its loads and compare-and-swaps), `Sharing`
  (many sessions on one quota), `Scheduler` (deficit round robin).
* **tox-reconcile**: `Iblt` and `IbltSketch`, set reconciliation by invertible Bloom lookup tables.
* **merkle-tox-core**: `Identity` and `IdentityManager` (delegation and revocation), `Clock` (the
  consensus clock), `Dag` and `Padding` (node validation, effective timestamps, payload padding),
  `Swarm` (chunked blob transfer).
* **merkle-tox-fs**: `Pack`, the index of a pack file, and the admin distance rule of `put_node`, in `Dag`.
* **tox-proto and its derive macros**: `MsgPack` (skipping and capturing MessagePack values), `Formats` (the
  formats of the MessagePack specification byte by byte, independent of the reader), `Schema`
  (typed data, writer and readers), `Evolution` and `Exactness` (older schemas reading newer data),
  `Forwarding` (handing on what is not understood).

`Wrappers`, `Sequences`, `Bytes`, `Sorting` and `Protocol` (the constants of tox-sequenced) hold what several
of them use. `dafny verify dfyconfig.toml` checks everything.

Objects that the source updates in place are classes with the source's fields; the queries and the
codec, which are recursions in the source, are functions. Hashes, signatures, ciphers, the transport,
timers, floating-point estimates and the answers of components that are not modelled are parameters, so
every theorem holds for all of their values. Integers are unbounded; where the width matters (fragment
indices, message ids, clock offsets, loop bounds over map entries, prefixes) wrap-around, saturation and
truncation are written out.

What is proved, in short:

* A session's `in_flight` is the sum of the fragments marked as sent plus an exactly characterised leak,
  which is zero in every run in which the peer acknowledges only what was sent. No fragment is forgotten:
  what was handed out is acked, in flight or queued, and accepted sends go through the queue and the new
  fragments once each, in order.
* No message id is delivered twice while ids stay within half of the id space, although the cache forgets
  entries; expiry keeps this exactly when what expires is beyond the lookback. What is delivered is the
  payload sent. One reassembler completes a message in whatever order and however often its fragments
  arrive exactly when the message is one fragment, or would fit the size limit with all fragments full;
  with the sender's fragment length that fails for the largest payload alone. The buffers of all sessions
  add up to what their quota counts, over every interleaving of their calls.
* Peeling an IBLT finds the same ids in every order, ends within a fixed number of iterations on any
  cells, and succeeds exactly on differences with an empty 2-core of at most `d_max` elements.
* Every queued message of the scheduler is served within a number of calls that depends on the length of
  its queue and the quantum of its level, and over any run a level sends no more than its quantums pay for.
* The three bounded recursions over the delegation graph mean what they should in terms of live chains,
  the delegation depth is always found, a revocation cuts exactly the chains it should, and mutual
  revocation leaves exactly the senior device.
* The clock's target stays within the honest range; the pack index agrees with a plain search; every
  history of validated nodes is acyclic, ranked by longest paths and close to an Admin node; the blob
  fetcher is work-conserving; older schemas read newer data and forward unknown variants unchanged.

Where the code falls short of what one would expect, the exact condition is proved with it: fragment
counts beyond 16 bits (`FragmentationIsLossless`; `CutCountLoses` is an input, and `SendMessage`, which
takes at most 1,048,576 bytes in fragments of 1353, never reaches one), repeated fragments at the size
limit (`ArrivesWhole`, `LargestIsLost`), acknowledgements ahead of sending (`HandleAck` says
which bytes leak, `EarlyAckLeaks` is a run), expiry of the duplicate cache (`Cleanup` says when it is
safe, `ExpiryRedelivers` what follows whenever it is not), sketches without cells
(`EmptySketchDecodes`), clock offsets whose double does not fit 64 bits (`MidpointBetween`,
`EqualVotesAgree`), the authorization cache, whose key omits rank and history (`CacheExact`,
`CacheMisleads`), pack sizes in 32 bits (`IndexableMeans`), map entries counted in 16 or 32 bits
(`SkipConsumesOne` for one value, `EvolveUnknown` for a captured variant, `EvolveExactly` at any nesting
for schemas without catch-all variants or data without empty arrays; `OversizeMap` and
`OversizeIsMisread` give inputs), unknown variants in a form that no schema here writes
(`CapturedUnchanged`), content nodes without parents (`OrphanAccepted`, `OrphanContent`).

Code and documentation differ in two places, and the model follows the code: the clock's documentation
says that the devices of one identity are averaged, but a new sample replaces the identity's earlier one
(merkle-tox-core/src/clock.rs:12-19 and 78-81); and the comment on fast retransmission speaks of
duplicate ACKs for the highest cumulative ACK, but what is counted is ACKs for the last base that
advanced, and only those that acknowledge something new (tox-sequenced/src/outgoing.rs:62-64 and 248-256).

## Model

| member | source | states |
|---|---|---|
| Bits.BitSet.Get | tox-sequenced/src/bitset.rs:22-30 | reads membership; indices past the words are not members |
| Bits.BitSet.Set | tox-sequenced/src/bitset.rs:32-46 | adds exactly the index and reports whether it was absent; no effect past the words |
| Bits.BitSet.Unset | tox-sequenced/src/bitset.rs:48-61 | removes exactly the index and reports whether it was present |
| Bits.BitSet.FirstZero | tox-sequenced/src/bitset.rs:73-86 | the word scan finds the least index outside the set, clamped to the limit |
| Bits.BitSet.NextZero | tox-sequenced/src/bitset.rs:88-121 | the masked word scan finds the least index outside the set in [start, limit), or none |
| Bits.BitSet.LastOne | tox-sequenced/src/bitset.rs:158-198 | the backward scan finds the greatest member below the limit, or none |
| Bits.BitSet.SackMask | tox-sequenced/src/bitset.rs:200-215 | bit i of the shifted words says whether base + 1 + i is a member, across word boundaries |
| Outgoing.FragmentationIsLossless | tox-sequenced/src/outgoing.rs:70-112 | the fragments concatenate to the payload exactly when the fragment count was not cut by the cast to 16 bits |
| Outgoing.CutCountLoses | tox-sequenced/src/outgoing.rs:70-112 | 65,537 bytes in fragments of one byte make one fragment, which holds the first byte alone |
| Outgoing.NewMessage | tox-sequenced/src/outgoing.rs:70-112 | refuses exactly when the 16-bit count exceeds the maximum; otherwise a valid message with nothing acked, sent, queued or in flight, and a timeout of 30 seconds from now |
| Outgoing.WrapAddsNothing | tox-sequenced/src/outgoing.rs:371-398 | for any base and mask, 16-bit wrap-around names no fragment beyond those below the base and the 64 above it |
| Outgoing.SackRoundTrip | tox-sequenced/src/bitset.rs:73-84 | the ACK a receiver builds from its set covers exactly the members up to 64 past the base |
| Reassembly.FragmentBuffer.AddFragment | tox-sequenced/src/reassembly/buffer.rs:52-95 | stores the first copy of each fragment and answers whether all are there; the bit set, the count, the sizes of the longest and the last fragment, the base and the highest index stay exact |
| Reassembly.FragmentBuffer.AdvanceBase | tox-sequenced/src/reassembly/buffer.rs:81-88 | the base is always the first fragment missing |
| Reassembly.FragmentBuffer.PlannedIs | tox-sequenced/src/reassembly/buffer.rs:146-165 | the sizes and counts kept by the buffer plan what its contents say |
| Contents.PlannedWhole | tox-sequenced/src/reassembly/buffer.rs:146-165 | a complete message is planned at its payload and the overhead of its fragments, whatever came first |
| Contents.PlannedCovers | tox-sequenced/src/reassembly/buffer.rs:146-165 | at any time what is planned covers what is in use |
| Contents.PlannedBound | tox-sequenced/src/reassembly/buffer.rs:146-165 | and is no more than for all fragments of the greatest length |
| Reassembly.FragmentBuffer.Assemble | tox-sequenced/src/reassembly/buffer.rs:108-118 | answers exactly when complete, with the fragments in order |
| Reassembly.FragmentBuffer.CreateAck | tox-sequenced/src/reassembly/mod.rs:70-80 | base and mask are those of the set received |
| Reassembly.MessageReassembler.AddFragment | tox-sequenced/src/reassembly/mod.rs:52-64 | refuses exactly over the size limit, also a fragment that is there already, or past the last index; else stores the first copy |
| Contents.ArrivesWhole | tox-sequenced/src/reassembly/mod.rs:52-64 | every list of arrivals that lacks nothing completes the message exactly when its payload fits the limit and it is one fragment or would fit with all fragments full |
| Contents.UnluckyIsLost | tox-sequenced/src/reassembly/mod.rs:59-61 | otherwise the first fragment, repeated before the last comes, is refused |
| Contents.OversizeIsLost | tox-sequenced/src/reassembly/mod.rs:59-61 | a payload over the limit is never completed |
| Contents.LargestPayload | tox-sequenced/src/reassembly/mod.rs:59-61 | of the payloads that the sender accepts, exactly the largest is not reliable |
| Contents.LargestIsLost | tox-sequenced/src/reassembly/mod.rs:59-61 | that payload with the arrivals that lose it |
| Reassembly.Transfer | tox-sequenced/src/reassembly/mod.rs:52-68 | one reassembler and any list of arrivals: the payload is put together exactly when every fragment came before the size test refused one, and is the payload sent |
| Reassembly.Acknowledge | tox-sequenced/src/outgoing.rs:211-280 | the receiver's ACK fed to the sender acks exactly what the receiver holds up to 64 past its base, and everything once it is complete |
| Outgoing.CountInIsSize | tox-sequenced/src/outgoing.rs:123-137 | the acked count kept by the message is the size of the acked set |
| Outgoing.ListsMeans | tox-sequenced/src/outgoing.rs:53-55 | the queue invariant says: no duplicates, and the bit set is exactly the queue's contents |
| Outgoing.Message.MarkFragmentSent | tox-sequenced/src/outgoing.rs:182-209 | puts the fragment in flight, queues it, and reports whether it was sent before and still in flight |
| Outgoing.Message.CollectAckedIndices | tox-sequenced/src/outgoing.rs:371-398 | lists exactly the covered fragments that are not acked yet and raises the cumulative mark |
| Outgoing.Message.ProcessSingleAck | tox-sequenced/src/outgoing.rs:283-336 | acks one fragment, takes it out of flight, counts it once and keeps the message's invariant |
| Outgoing.Message.HandleFastRetransmit | tox-sequenced/src/outgoing.rs:338-369 | counts duplicates of the last base and, at the third, takes at most the base fragment out of flight and queues it |
| Outgoing.Message.TriggerLoss | tox-sequenced/src/outgoing.rs:466-480 | moves one fragment from flight to the retransmit queue and nothing else |
| Outgoing.Message.ScanHoles | tox-sequenced/src/outgoing.rs:426-464 | the running counter never underflows and counts the acked fragments above the hole; the queued fragments are those of the declarative rule, lowest first |
| Outgoing.Message.DetectLossesFromHoles | tox-sequenced/src/outgoing.rs:426-464 | the bounds of the scan miss no hole: the lost fragments are all holes with three acked fragments above them and an old enough send time |
| Outgoing.Message.DetectLosses | tox-sequenced/src/outgoing.rs:248-258 | an ACK that advances the base clears the duplicate count; what is given up is exactly the holes plus the base at its third duplicate |
| Outgoing.Message.CleanupInFlightQueue | tox-sequenced/src/outgoing.rs:495-519 | `retain` in order: exactly the named fragments leave the queue, and the bytes of each are counted once, duplicates in the queue included |
| Outgoing.RetainConcat | tox-sequenced/src/outgoing.rs:495-519 | `retain` keeps the order: it acts on the parts of a queue one by one |
| Outgoing.Message.DropAckedRetransmits | tox-sequenced/src/outgoing.rs:257-273 | the retransmit queue keeps exactly its unacked entries, in order, and the rebuilt bit set lists them |
| Outgoing.Message.OnAck | tox-sequenced/src/outgoing.rs:211-280 | every field of the message afterwards: exactly the covered fragments become acked; exactly the holes, and the base at its third duplicate, are given up and queued, the base first; both queues keep their order; the reported bytes are exactly those that left the flight; every queue, bit set and counter stays consistent |
| Outgoing.Message.OnNack | tox-sequenced/src/session.rs:713-745 | exactly the named unacked fragments leave the flight and are queued once, in the order of the NACK; the bytes removed are theirs |
| Outgoing.Message.FlightBytes | tox-sequenced/src/session.rs:1194-1199 | the loop over the fragment states adds up exactly the bytes in flight |
| SendSession.FreeId | tox-sequenced/src/session.rs:236-246 | the search always ends on the first unused id, with wrap-around |
| SendSession.Pigeonhole | tox-sequenced/src/session.rs:236-246 | 32 consecutive ids cannot all be taken by fewer than 32 messages |
| SendSession.Session.constructor | tox-sequenced/src/session.rs:158-200 | a new session has no messages, counts nothing and owes nothing |
| SendSession.Session.SendMessage | tox-sequenced/src/session.rs:226-273 | refuses exactly on a full queue or an oversize payload, which still uses up its id; otherwise queues the payload under the first free id, with its timeout running from now, and leaves the counter alone |
| SendSession.Session.TrySendFragment | tox-sequenced/src/session.rs:1269-1340 | a refused packet changes nothing; a taken one puts the fragment in flight and counts its bytes once |
| SendSession.Session.SendNextFragment | tox-sequenced/src/session.rs:1096-1167 | sends exactly the head of the retransmit queue, else the expired head in flight, else the next new fragment; the message afterwards is exact: the fragment left the queue it came from or moved the send mark, and is last in flight; failure changes nothing |
| SendSession.PlanStep | tox-sequenced/src/session.rs:1105-1164 | a send takes the front off what is planned, the retransmit queue and then the fragments never sent, unless it repeats the head in flight |
| SendSession.Session.SendPlanned | tox-sequenced/src/session.rs:1096-1167 | a run of accepted calls without timeouts sends what is planned from its front, each fragment once and in order |
| SendSession.NeverStuck | tox-sequenced/src/session.rs:1096-1167 | since every fragment below the send mark is acked, in flight or queued, a message that is not complete always has something to send |
| SendSession.Session.Retransmit | tox-sequenced/src/session.rs:1105-1123 | the head of the retransmit queue is popped only when the packet was taken |
| SendSession.Session.ResendExpired | tox-sequenced/src/session.rs:1125-1147 | an expired fragment sent again is still counted once; its old queue entry goes only on success |
| SendSession.Session.SendNew | tox-sequenced/src/session.rs:1149-1164 | the send mark advances by one exactly on success |
| SendSession.Session.ProbeZeroWindow | tox-sequenced/src/session.rs:938-967 | the first message with anything to send, and of it exactly the queued, new or oldest fragment, acked or not; the message afterwards is exact, and the counter stays so although no queue is popped |
| SendSession.Session.TailLossProbe | tox-sequenced/src/session.rs:1058-1074 | sending the newest entry again does not change the counter |
| SendSession.Session.HandleAck | tox-sequenced/src/session.rs:637-711 | the counter drops by the bytes that left the flight; a message is removed exactly when all its fragments are acked, and the bytes it leaves counted are exactly those sent after having been acked; otherwise the message is exactly what the ACK makes of it, lost fragments queued included |
| SendSession.AckMessage | tox-sequenced/src/session.rs:637-711 | what an ACK takes off the counter and leaves in flight; with a peer that acks only what was sent, a completed message leaves no byte counted |
| SendSession.HonestAfterAck | tox-sequenced/src/outgoing.rs:211-280 | an ACK for fragments that were sent leaves the peer's answers plausible: nothing in flight is acked, and only what was sent is acked or queued |
| SendSession.HonestAfterNack | tox-sequenced/src/session.rs:713-745 | the same for a NACK |
| SendSession.EarlyAckLeaks | tox-sequenced/src/session.rs:938-967 | a run in which an early ACK and two zero-window probes leave 647 bytes counted in an empty session |
| SendSession.Session.HandleNack | tox-sequenced/src/session.rs:713-745 | the counter drops by exactly the bytes of the fragments pulled out of flight, and both queues afterwards are exact |
| SendSession.Session.Expire | tox-sequenced/src/session.rs:1184-1206 | a timed-out message takes all its bytes in flight off the counter |
| SendSession.Session.Cleanup | tox-sequenced/src/session.rs:1184-1206 | exactly the live messages stay, each under its id, and the counter stays exact |
| SendSession.LiveMember | tox-sequenced/src/session.rs:1184-1206 | what stays heard of its peer within its own timeout and the connection's |
| Quota.InitHolds | tox-sequenced/src/quota.rs:27-35 | a fresh quota counts what its sessions hold: nothing |
| Quota.ThresholdsRise | tox-sequenced/src/quota.rs:41-47 | thresholds rise with priority, strictly from 25 bytes on |
| Quota.StepKeeps | tox-sequenced/src/quota.rs:37-104 | every load and compare-and-swap of sessions with legal histories keeps the counter equal to what the sessions hold and within capacity, and a release never saturates |
| Quota.LegalBefore | tox-sequenced/src/quota.rs:92-104 | histories only grow, so they were legal at every earlier point |
| Quota.RunKeeps | tox-sequenced/src/quota.rs:37-104 | wherever an interleaving of any number of sessions has come with legal histories, the counter is exact |
| Sharing.Conservation | tox-sequenced/src/session.rs:452-575 | the buffer sizes of any number of sessions, after whatever packets, cleanups and drops, add up to what their quota counts, within its capacity |
| Sharing.CallExtendsRun | tox-sequenced/src/quota.rs:37-104 | every run can be continued by any call with the answer that the thresholds give |
| Delivery.EvictedIsFarBehind | tox-sequenced/src/session.rs:570-612 | when the duplicate cache overflows, the highest id is more than the lookback past the entry it forgets |
| Delivery.AdmittedIsNew | tox-sequenced/src/session.rs:419-441 | an id that passes the lookback test and is not cached was never delivered |
| Delivery.OpenKeeps | tox-sequenced/src/session.rs:443-512 | opening a reassembler keeps the delivery invariant |
| Delivery.FinishKeeps | tox-sequenced/src/session.rs:570-612 | completing a message, with eviction, keeps the delivery invariant |
| Delivery.ForgetKeeps | tox-sequenced/src/session.rs:1207-1208 | forgetting cached ids keeps the delivery invariant exactly when every delivered one is far behind |
| ReceiveSession.Serial | tox-sequenced/src/session.rs:419-441 | wrap-around comparison of ids is the order of positions within half of the id space, as in section 3.2 of RFC 1982 |
| ReceiveSession.OnceMeansNoDuplicate | tox-sequenced/src/session.rs:570-612 | under the invariant the ids delivered are pairwise different |
| ReceiveSession.Session.constructor | tox-sequenced/src/session.rs:158-200 | a new session holds nothing, and the delivery invariant holds from every origin and for whatever is sent |
| ReceiveSession.Session.EnsureReassembler | tox-sequenced/src/session.rs:443-512 | a slot that is there is accepted exactly with an equal fragment count; a new one is opened exactly when slots, quota, session limit and fragment count allow, empty and with its reservation counted |
| ReceiveSession.InitialCovers | tox-sequenced/src/session.rs:465-469 | the first reservation covers all fragments if they are as long as this one, or as estimated |
| ReceiveSession.Session.Admit | tox-sequenced/src/session.rs:372-403 | an id that is neither completed nor ancient gets its slot, new or old, without risk of a second delivery |
| ReceiveSession.Session.Resize | tox-sequenced/src/session.rs:535-566 | the slot is kept exactly when the planned size fits or the quota and the session limit allow the growth; otherwise everything is given back |
| ReceiveSession.Session.ProcessFragment | tox-sequenced/src/session.rs:514-625 | the slot holds the new contents with the planned reservation, or is finished or given up, as the reassembler, the quota and the limits say; what is cached and delivered, with its payload, is exact; no id is delivered twice |
| ReceiveSession.Session.Finish | tox-sequenced/src/session.rs:569-612 | frees the slot and its memory, caches the id, delivers id and payload exactly when it decodes |
| ReceiveSession.Session.HandleData | tox-sequenced/src/session.rs:372-406 | one packet, for a new id or one in reassembly: what is held for the id afterwards, with its fragments and reservation, and that no other slot changes; the id is delivered exactly when the packet completes it, the memory planned for it is there and it decodes, with the payload put together; the buffer size is the sum of the reservations and what the quota holds; delivery stays at most once; and while packets are fragments of what was sent, what is delivered is what was sent |
| ReceiveSession.FragmentCarries | tox-sequenced/src/session.rs:514-625 | a fragment of what was sent leaves only such fragments in its slot, and what it finishes is what was sent |
| ReceiveSession.ReceiveAll | tox-sequenced/src/session.rs:372-625 | a run of fragments of one payload in any order and number, with memory granted: the session delivers the payload, once, exactly when the run completes it, starting again after a refused fragment exactly for ids older than the highest |
| ReceiveSession.ReceiveReliable | tox-sequenced/src/session.rs:372-625 | if every fragment arrives, a message that no repetition can push over the limit is delivered |
| Contents.SessionCompletes | tox-sequenced/src/session.rs:618-623 | what one reassembler completes a session delivers, and for the highest id nothing else |
| ReceiveSession.Session.Cleanup | tox-sequenced/src/session.rs:1169-1208 | exactly the active reassemblers and the recent entries stay; at-most-once survives exactly when every delivered id that expires is more than the lookback behind the highest; payloads stay those sent |
| ReceiveSession.ActiveMember | tox-sequenced/src/session.rs:1169-1182 | the reassemblers that stay are those active within the timeout |
| ReceiveSession.Session.Drop | tox-sequenced/src/session.rs:1409-1412 | dropping a session releases exactly what it holds |
| ReceiveSession.ExpiryRedelivers | tox-sequenced/src/session.rs:419-441 | whenever the expiry is not safe, and a slot and memory for one packet are free, at most two packets deliver an id a second time |
| ReceiveSession.ExpiryRun | tox-sequenced/src/session.rs:1207-1208 | such a run from the start |
| Scheduler.PriorityScheduler.UpdateMessage | tox-sequenced/src/scheduler.rs:48-69 | the message is in exactly the queue of its priority, its level is active, and the others keep their order |
| Scheduler.PriorityScheduler.RemoveMessage | tox-sequenced/src/scheduler.rs:71-80 | the message is in no queue, and emptied levels lose deficit and turn |
| Scheduler.TurnToReady | tox-sequenced/src/scheduler.rs:107-132 | the inner loop rotates the queue to its first ready message, or once around |
| Scheduler.PriorityScheduler.VisitFront | tox-sequenced/src/scheduler.rs:91-140 | one turn of the loops is the visit that the progress argument is about |
| Scheduler.PriorityScheduler.NextMessage | tox-sequenced/src/scheduler.rs:86-142 | a call is as many visits as there are active levels, up to the first message served; what is served was queued and ready, and its size comes off the deficit of its level, after its quantum |
| Scheduler.CallCharges | tox-sequenced/src/scheduler.rs:86-142 | a served message was queued and ready, and its level paid its size from what it had and was granted |
| Scheduler.CallBalances | tox-sequenced/src/scheduler.rs:86-142 | in a call, what a level sends and keeps comes from what it had and, if it gets its turn, from one quantum |
| Scheduler.QuantumsPay | tox-sequenced/src/scheduler.rs:86-142 | over any run, a level sends at most what it had saved and a quantum for each turn at which it asked for one |
| Scheduler.DeficitLasts | tox-sequenced/src/scheduler.rs:113-128 | a deficit pays for as many fragments as fit into it; then the next level is served in the same call |
| Scheduler.SharesByQuantum | tox-sequenced/src/scheduler.rs:113-128 | 4096 bytes pay for three fragments of 1353; the fourth call serves the lowest level |
| Scheduler.OwnVisit | tox-sequenced/src/scheduler.rs:105-133 | a visit to a message's own level serves it, brings it forward, or saves up for the message in front |
| Scheduler.SavesUp | tox-sequenced/src/scheduler.rs:99-133 | a visit that serves nothing asks for a quantum or has saved a whole one |
| Scheduler.OtherVisit | tox-sequenced/src/scheduler.rs:105-140 | a visit to another level moves that level behind, or spends its deficit |
| Scheduler.VisitProgress | tox-sequenced/src/scheduler.rs:86-142 | every visit serves the message or lowers a lexicographic measure, and keeps the queues' contents |
| Scheduler.NoStarvation | tox-sequenced/src/scheduler.rs:86-142 | with all queued messages always ready in sizes of 1 to 16384, every message is served within 81,935 calls for each message of its queue and each of the 6 to 34 visits in which its level can save up a deficit |
| IbltSketch.Sketch.Update | tox-reconcile/src/iblt.rs:143-155 | adds the signed item to exactly the cells of the id |
| IbltSketch.Sketch.Insert | tox-reconcile/src/iblt.rs:135-137 | adds the item of the id in the group of cells |
| IbltSketch.Sketch.Remove | tox-reconcile/src/iblt.rs:139-141 | subtracts it: the inverse of insertion |
| IbltSketch.Sketch.Subtract | tox-reconcile/src/iblt.rs:193-207 | refuses exactly on different sizes; otherwise the cell-wise difference |
| IbltSketch.SharedCancel | tox-reconcile/src/iblt.rs:193-207 | ids present on both sides cancel out of every cell |
| IbltSketch.Sketch.Peel | tox-reconcile/src/iblt.rs:247-259 | removes one id from its cells and keeps every pure cell on the stack, pushing at most four |
| IbltSketch.Sketch.Decode | tox-reconcile/src/iblt.rs:209-278 | on arbitrary cells: ends within 3n + 4 d_max iterations; on success the two lists re-encode to the original cell by cell in count, id XOR and checksum XOR |
| Iblt.FoundPlusRest | tox-reconcile/src/iblt.rs:209-278 | at every point of every peeling run, what was found plus what is left is the original |
| Iblt.RunPeels | tox-reconcile/src/iblt.rs:209-278 | without coincidences every pick is a true difference, on its side, once |
| Iblt.StuckSurvives | tox-reconcile/src/iblt.rs:280-286 | no run ever peels an element of a 2-core |
| Iblt.ExhaustedIsStuck | tox-reconcile/src/iblt.rs:280-286 | when no pure cell is left, what remains is a 2-core |
| Iblt.OrderIndependent | tox-reconcile/src/iblt.rs:209-278 | any two exhausted runs find the same ids on each side, whatever the order |
| Iblt.DecodeComplete | tox-reconcile/src/iblt.rs:209-278 | success exactly for an empty 2-core of at most d_max elements, and then exactly the two one-sided differences |
| IbltSketch.Reconcile | tox-reconcile/src/iblt.rs:96-286 | sketching two sets, subtracting and decoding: the same, end to end |
| IbltSketch.EmptySketchDecodes | tox-reconcile/src/iblt.rs:209-278 | a sketch without cells decodes successfully to nothing |
| Identity.AuthorizedMeans | merkle-tox-core/src/identity.rs:640-743 | an answer exists exactly when a live chain of at most 17 records leads to the master key, and is the latest expiry among them; `SoleRecord`, `MasterRevokes` and `DeviceRevokes` say what is live field by field |
| Identity.PermissionsMean | merkle-tox-core/src/identity.rs:773-887 | permissions are the union over live chains of the intersection along each, given exactly to authorized devices |
| Identity.OrderDoesNotMatter | merkle-tox-core/src/identity.rs:640-887 | reordering records, revocations, or the device map (when hashes have one owner) changes no answer |
| Identity.AnswerKeeps | merkle-tox-core/src/identity.rs:591-637 | an answer is the answer to every question of the same rank and history about a time before it runs out |
| Identity.DepthMeans | merkle-tox-core/src/identity.rs:303-348 | the depth is the length of a shortest delegation path, found whenever one of at most 16 records exists |
| Identity.AddKeepsAnchored | merkle-tox-core/src/identity.rs:513-575 | a new record keeps every record within 16 records of the master key at every later rank |
| IdentityManager.Manager.FindIssuer | merkle-tox-core/src/identity.rs:443-511 | finds a device that signed the certificate and effectively holds ADMIN, unless there is none |
| IdentityManager.Manager.IsAuthorized | merkle-tox-core/src/identity.rs:591-637 | for a question that agrees in rank and history with those asked under its hash, the cached answer is the uncached one at every time, whatever the cache has pushed out |
| IdentityManager.CacheExact | merkle-tox-core/src/identity.rs:598-611 | of two questions with one cache key, the lasting answers to the first are right for the second in every state exactly when rank and history agree |
| IdentityManager.TrapExists | merkle-tox-core/src/identity.rs:598-611 | whenever they do not agree, a record or a revocation tells the two questions apart |
| IdentityManager.CacheMisleads | merkle-tox-core/src/identity.rs:598-637 | whenever they do not agree, authorizing and perhaps revoking one device makes the cache answer the second question wrongly |
| IdentityManager.CacheIgnoresRank | merkle-tox-core/src/identity.rs:604-611 | an instance: a path found at rank 10 answers for rank 5, where there is none |
| IdentityManager.Manager.AuthorizeDevice | merkle-tox-core/src/identity.rs:401-580 | only the master key or an effective ADMIN holding all delegated permissions can add a record; each refusal is returned exactly when its test is the first to fail for a device that signed the certificate; the issuer's depth is always found; failures change nothing |
| IdentityManager.VerdictMeans | merkle-tox-core/src/identity.rs:513-556 | the outcomes in numbers: permissions, 16 records deep, 32 devices of an identity, 4096 devices |
| IdentityManager.CountIsSize | merkle-tox-core/src/identity.rs:530-541 | devices are counted once each, if they hold a record for the identity |
| IdentityManager.OutcomeIgnoresOrder | merkle-tox-core/src/identity.rs:443-580 | if at most one key verifies the certificate, outcome and issuer do not depend on the order of devices, records and revocations |
| IdentityManager.OldestIsLeast | merkle-tox-core/src/identity.rs:362-380 | the loop finds the least (rank, hash) of the usable ADMIN records |
| IdentityManager.Manager.RevokeDevice | merkle-tox-core/src/identity.rs:352-395 | appends one revocation with that seniority, clears the cache and keeps every record anchored |
| IdentityManager.SoleRecord | merkle-tox-core/src/identity.rs:663-714 | a device with one record of the master key and no revocation is authorized, with its permissions, exactly by identity, expiry, rank and history |
| IdentityManager.ChainsAfter | merkle-tox-core/src/identity.rs:683-714 | a one-sided revocation leaves exactly the chains on which the target holds only records older than the revoker |
| IdentityManager.RevocationCuts | merkle-tox-core/src/identity.rs:683-714 | so each device stays authorized exactly by such a chain |
| IdentityManager.MasterRevokes | merkle-tox-core/src/identity.rs:352-395 | a device revoked by the master key has no answer and no permissions at any rank from the revocation on |
| IdentityManager.NoChainThrough | merkle-tox-core/src/identity.rs:683-714 | and no chain leads through it |
| IdentityManager.DeviceRevokes | merkle-tox-core/src/identity.rs:683-714 | a revocation by a device takes effect exactly when its oldest ADMIN rank is at most the rank of the record |
| IdentityManager.RevokeByMaster | merkle-tox-core/src/identity.rs:352-395 | the same through the manager, whatever was cached |
| IdentityManager.RevokeByDevice | merkle-tox-core/src/identity.rs:352-395 | the same through the manager: a junior device cannot revoke a senior one |
| IdentityManager.PartySurvives | merkle-tox-core/src/identity.rs:683-714 | of two devices that revoked each other, one survives exactly when its (rank, hash) is the smaller |
| IdentityManager.MutualRevocation | merkle-tox-core/src/identity.rs:191-226 | exactly one of the two stays authorized, whichever revocation came first and whatever other devices exist |
| Clock.VoteIsSample | merkle-tox-core/src/clock.rs:93-113 | an identity's vote is its sample as reported exactly when the weight is positive and the product does not saturate |
| Clock.MediansUnique | merkle-tox-core/src/clock.rs:119-143 | the lower and the upper weighted median are unique and ordered |
| Clock.PickedIsConsensus | merkle-tox-core/src/clock.rs:125-143 | what the scan of the sorted votes picks is the order-free median or midpoint of medians |
| Clock.Median | merkle-tox-core/src/clock.rs:122-143 | the loop always picks, and picks the weighted median |
| Clock.WeightedMedian | merkle-tox-core/src/clock.rs:119-143 | sorting does not change which value that is |
| Clock.MidpointBetween | merkle-tox-core/src/clock.rs:133-139 | the midpoint of two offsets lies between them exactly when their 64-bit sum does not overflow |
| Clock.ConsensusIsMean | merkle-tox-core/src/clock.rs:133-139 | the consensus is the mean of the two medians, rounded toward zero, whenever their sum fits 64 bits |
| Clock.MajorityConfines | merkle-tox-core/src/clock.rs:119-143 | samples in a range with more than half the weight confine both medians to it |
| Clock.Resilience | merkle-tox-core/src/clock.rs:86-147 | with an honest majority of weight the target is in the honest range, for any other offsets and weights |
| Clock.EqualVotesAgree | merkle-tox-core/src/clock.rs:133-139 | two equal votes agree on their offset exactly when its double fits 64 bits |
| Clock.NetworkClock.UpdatePeerOffset | merkle-tox-core/src/clock.rs:69-84 | replaces the sample of one identity alone and recomputes the target |
| Clock.NetworkClock.RecalculateConsensus | merkle-tox-core/src/clock.rs:86-161 | the target is the consensus of all votes, itself within five minutes and else the nearer bound; only the first sample is applied at once, and the jump on massive drift never happens |
| Clock.NetworkClock.ApplySlewing | merkle-tox-core/src/clock.rs:164-182 | the current offset moves toward the target without passing it, by exactly one part in a hundred of the time elapsed until it is there |
| Clock.NetworkClock.NetworkTime | merkle-tox-core/src/clock.rs:185-199 | the network time never goes back |
| Pack.LexIsNumeric | merkle-tox-fs/src/pack.rs:69 | the order of hashes is the order of the numbers they spell |
| Pack.PrefixMonotone | merkle-tox-fs/src/pack.rs:111-125 | prefixes follow the order of the hashes |
| Pack.GetPrefix | merkle-tox-fs/src/pack.rs:111-125 | the 32-bit shifts compute the leading bits without loss, below the table size |
| Pack.CountSplits | merkle-tox-fs/src/pack.rs:91-101 | in sorted records the count up to a prefix is where that prefix ends |
| Pack.IndexableMeans | merkle-tox-fs/src/pack.rs:71-75 | below 2^32 records, exactly seven record counts give a filter whose size in bits is zero in 32-bit arithmetic |
| Pack.PackIndex.constructor | merkle-tox-fs/src/pack.rs:67-109 | the index holds exactly the input records, sorted, all admitted by the filter (its size in 32-bit arithmetic), with exact prefix sums |
| Pack.PackIndex.AddToBloom | merkle-tox-fs/src/pack.rs:79-89 | sets the bits of one hash and forgets no other |
| Pack.PackIndex.SumPrefixes | merkle-tox-fs/src/pack.rs:96-101 | turns counts per prefix into counts up to each prefix, in place |
| Pack.PackIndex.MayContain | merkle-tox-fs/src/pack.rs:207-220 | no false negatives: a rejected hash belongs to no record |
| Pack.PackIndex.Bucket | merkle-tox-fs/src/pack.rs:222-229 | the fanout entries bracket exactly the records with the prefix |
| Pack.BinarySearch | merkle-tox-fs/src/pack.rs:231-236 | finds a record with the hash in the slice exactly when there is one |
| Pack.PackIndex.Lookup | merkle-tox-fs/src/pack.rs:206-237 | returns a record with the hash exactly when the index holds one |
| Dag.Store.CheckForm | merkle-tox-core/src/dag.rs:576-657 | passes exactly nodes within the size limits, with distinct parents and the signature their content calls for |
| Dag.Store.CheckRank | merkle-tox-core/src/dag.rs:659-689 | passes exactly when all parents are known and the rank is one more than theirs; reports exactly the missing parents |
| Dag.Store.CheckAnchors | merkle-tox-core/src/dag.rs:689-726 | chain isolation, and soft anchors on their basis alone in chains of at most three |
| Dag.Store.CheckAncestry | merkle-tox-core/src/dag.rs:728-745 | passes exactly content whose nearest parent is below the cap |
| Dag.Store.Validate | merkle-tox-core/src/dag.rs:570-748 | accepts exactly the acceptable nodes |
| Dag.AuthenticMeans | merkle-tox-core/src/dag.rs:610-657 | the authentication rules as a table by content: who must sign, who may, who must not |
| Dag.AcceptedIsSigned | merkle-tox-core/src/dag.rs:610-657 | an accepted Admin node is signed or is a parentless Genesis, a signed Genesis is mined, and no message carries a device signature |
| Dag.AcceptedFits | merkle-tox-core/src/dag.rs:574-609 | an accepted node has at most 16 distinct parents and fits the size limits |
| Dag.Store.PutNode | merkle-tox-fs/src/lib.rs:718-781 | stores any node with its admin distance; a sound history stays sound when the node is acceptable |
| Dag.Store.Receive | merkle-tox-core/src/dag.rs:570-748 | a rejected node changes nothing; an accepted one keeps the history sound |
| Dag.AcceptableAgrees | merkle-tox-core/src/dag.rs:659-747 | growth of the history changes neither a node's validity nor its distance |
| Dag.Acyclic | merkle-tox-core/src/dag.rs:659-689 | no node is its own ancestor |
| Dag.RankIsLongestPath | merkle-tox-core/src/dag.rs:659-689 | the rank is the length of the longest path to a root |
| Dag.SoftRunsAreShort | merkle-tox-core/src/dag.rs:711-727 | no path has more than three soft anchors in a row |
| Dag.RunIsChain | merkle-tox-fs/src/lib.rs:587-599 | the recursive chain length bounds every run of soft anchors |
| Dag.WithinReachOfAdmin | merkle-tox-fs/src/lib.rs:731-757 | content with parents is within 500 hops of an Admin node, and the stored distance is the shortest |
| Dag.OrphanAccepted | merkle-tox-core/src/dag.rs:570-748 | content without parents is acceptable in any history exactly at rank 0 within the limits and with a fitting signature |
| Dag.OrphanExists | merkle-tox-core/src/dag.rs:570-748 | such a node in the empty history |
| Dag.OrphanContent | merkle-tox-fs/src/lib.rs:731-757 | content without parents has the largest distance and no Admin ancestor |
| Dag.EffectiveIsMaximum | merkle-tox-core/src/dag.rs:1005-1014 | the effective timestamp is the maximum over the node and all its ancestors |
| Dag.EffectiveIsMonotone | merkle-tox-core/src/dag.rs:1005-1014 | in a history with valid ranks it never falls from a parent to its child |
| Padding.ApplyPadding | merkle-tox-core/src/dag.rs:981-987 | appends 0x80 and zeros up to the smallest power of two from 128 that fits |
| Padding.RemovePadding | merkle-tox-core/src/dag.rs:989-1000 | succeeds exactly on padded data and returns it |
| Padding.PaddingIsInjective | merkle-tox-core/src/dag.rs:981-1000 | padded bytes determine the data |
| Padding.RoundTrip | merkle-tox-core/src/dag.rs:981-1000 | removing the padding gives back any data |
| Swarm.ChunkTracker.MarkReceived | merkle-tox-core/src/cas.rs:85-91 | exactly the chunk stops being missing |
| Swarm.ChunkTracker.IsComplete | merkle-tox-core/src/cas.rs:103-111 | complete exactly when no chunk is missing |
| Swarm.ChunkTracker.NextMissing | merkle-tox-core/src/cas.rs:113-129 | the first missing chunk from the hint on, else the first below it, else none is missing |
| Swarm.SwarmSync.RemoveSeeder | merkle-tox-core/src/cas.rs:158-161 | drops the peer and exactly its fetches |
| Swarm.SwarmSync.ClearStalledFetches | merkle-tox-core/src/cas.rs:164-167 | drops exactly the fetches older than the timeout |
| Swarm.SwarmSync.OnChunkReceived | merkle-tox-core/src/cas.rs:223-235 | the chunk is no longer fetched, and no longer missing if it verified; the invariants hold |
| Swarm.ChunksCover | merkle-tox-core/src/cas.rs:200-235 | every byte of the blob lies in exactly one chunk and in the request for it |
| Swarm.RequestsReturn | merkle-tox-core/src/cas.rs:200-235 | the answer to a request is booked to its chunk, and every chunk has bytes of the blob |
| Swarm.SwarmSync.PickSeeder | merkle-tox-core/src/cas.rs:193-198 | the least loaded seeder below four fetches, by key among equals, or all are saturated |
| Swarm.SwarmSync.NextRequests | merkle-tox-core/src/cas.rs:170-221 | at most four fetches per peer, to seeders, for missing chunks; stops short of the limit only when every seeder is saturated or every missing chunk is being fetched |
| MsgPack.Reader.SkipValue | tox-proto/src/lib.rs:444-580 | the recursive reader with its loops computes the skip function and always ends |
| MsgPack.Reader.CaptureValue | tox-proto/src/lib.rs:587-605 | returns the bytes that the skip consumed |
| MsgPack.PassedMeans | tox-proto/src/lib.rs:510-532 | the loop bound is short exactly for 16-bit maps from 32768 entries and 32-bit maps from 2^31 entries |
| MsgPack.SkipForest | tox-proto/src/lib.rs:492-532 | skipping values in a row never fails and stops between two values; it skips exactly that many when none holds an oversize map, else fewer; it uncovers no empty array that was not there |
| MsgPack.SkipConsumesOne | tox-proto/src/lib.rs:444-580 | exactly one value is consumed, before any suffix, exactly when it holds no oversize map |
| Formats.SkipsOneValue | tox-proto/src/lib.rs:444-580 | every value of the MessagePack formats, written out byte by byte, is skipped exactly, before any suffix, exactly when no map is oversize |
| Formats.EveryValueHasFormat | tox-proto/src/lib.rs:444-580 | the values that the reader knows are those of the formats and no others |
| Formats.ReservedIsRefused | tox-proto/src/lib.rs:444-580 | the reserved byte is refused |
| MsgPack.CaptureIsEncoding | tox-proto/src/lib.rs:587-605 | the captured bytes are the encoding of that value |
| Evolution.IntRoundTrip | tox-proto/src/lib.rs:703-768 | integers are read back from their shortest form, signed and unsigned |
| Evolution.UnsignedForms | tox-proto/src/lib.rs:703-768 | integers are read from any unsigned width |
| Evolution.SignedForms | tox-proto/src/lib.rs:703-768 | integers are read from any signed width, in two's complement |
| Evolution.Evolve | tox-proto-derive/src/deserialize.rs:185-341 | an older schema reads newer data of any nesting as its known part and consumes exactly the value |
| Evolution.LongOption | tox-proto/src/lib.rs:1428-1443 | an optional value that is a longer array is read as absent, and the array is skipped |
| Evolution.StructConsumesAll | tox-proto-derive/src/deserialize.rs:185-194 | a struct reader stops at the end of a newer struct exactly when no skipped field holds an oversize map |
| Exactness.ReadStops | tox-proto-derive/src/deserialize.rs:185-341 | without catch-all variants, or from values without empty arrays, reading from a row of values fails or stops between two values, having passed at most one |
| Exactness.EvolveExactly | tox-proto-derive/src/deserialize.rs:185-341 | without catch-all variants, or for data without empty arrays, at any nesting: newer data is read as its known part and consumed exactly when nothing skipped or captured holds an oversize map |
| Exactness.EmptyHeaderReadsOn | tox-proto/src/lib.rs:621-624 | with a catch-all variant an empty array and the integer behind it are read as one value |
| Evolution.EvolveUnknown | tox-proto-derive/src/deserialize.rs:319-341 | an unknown variant ends up in the catch-all variant with its discriminant and payload bytes, and what follows is left, exactly when its payload holds no oversize map |
| Evolution.OversizeMap | tox-proto/src/lib.rs:510-532 | typed maps of 32,768 to 65,535 entries are well formed, and a skip passes 65,536 keys and values too few |
| Evolution.OversizeIsMisread | tox-proto-derive/src/deserialize.rs:185-194 | with such a map in an unknown field or variant, an older reader does not stop at its end |
| Evolution.PairHeader | tox-proto/src/lib.rs:608-646 | the header of a variant with payload is read as its discriminant and length two |
| Forwarding.UnknownUnchanged | tox-proto-derive/src/serialize.rs:203-217 | the catch-all variant writes an unknown variant as its own schema wrote it |
| Forwarding.ForwardedUnchanged | tox-proto-derive/src/serialize.rs:151-217 | data read by an older schema and written again is unchanged byte for byte exactly when no struct lost a field; maps are ordered maps |
| Forwarding.CapturedUnchanged | tox-proto-derive/src/deserialize.rs:319-341 | over all inputs, what the catch-all variant captured is written back byte for byte exactly when the header is a bare shortest discriminant, or a one-byte header for two values with one |
| Forwarding.ArrayOfOneChanges | tox-proto-derive/src/serialize.rs:203-217 | a discriminant alone in an array is written back without the array |
| Forwarding.RoundTrip | tox-proto-derive/src/deserialize.rs:185-341 | data of any type is read back from its bytes, before any suffix |
| Forwarding.Relay | tox-proto-derive/src/serialize.rs:203-217 | what passes whole through a node on an older schema reaches a newer reader intact |

## Left out

- The congestion controllers, RTT smoothing, delivery-rate samples and pacing: floating point, and not part of any property here.
- The main loop of `flush_packets` (tox-sequenced/src/session.rs:969-1056): its tests of window, pacing and acknowledgement only decide which of the modelled sends happens; the scheduler is modelled on its own.
- Pings, datagrams, the batching of ACKs and NACKs, and session events other than deliveries.
- ReceiveSession.Session.ProcessFragment: a slot holds the contents of its reassembler as a value, computed by the functions that `Reassembly` proves its objects compute; whether a payload decodes is a parameter.
- `set_quota`: replacing the quota of a session that holds reservations.
- Outgoing.Message.OnAck: the message is a value that each operation returns changed, and its bit sets are sets, so update in place and aliasing are not captured; `Bits` relates the words to the sets. The round-trip times it reports are not modelled.
- SendSession.Session.SendMessage: the payload is its serialized size.
- ReceiveSession.Session.HandleData: the payload delivered is the message put together, before its envelope is decoded; replies to the sender are not modelled.
- IbltSketch.Sketch.Decode: counts are unbounded where the source has 32 bits, ids and checksums are sets of their one bits, and the index and checksum hashes are parameters; the rejection loop of `get_indices` is not modelled.
- IdentityManager.Manager.AuthorizeDevice: one conversation; the hash map of devices is iterated in insertion order, and `OutcomeIgnoresOrder` covers other orders.
- Members, founders, device lists and the device caps as properties: the caps are enforced on one of the two paths only.
- Clock.NetworkClock.ApplySlewing: reals where the source has floats, so rounding is not captured.
- Pack.PackIndex.constructor: more than 32 fanout bits, 2^32 records, and the seven record counts at which the filter has no bits in 32-bit arithmetic (`IndexableMeans`; the source then divides by zero) are excluded; the filter is a list of bytes written as eight bits each.
- Saving and loading packs, the journal, compaction, the opaque store, ratchets and SQLite: file and database access.
- Dag.Store.Receive: `hash` stands for the node's hash; that different nodes have different hashes is a hypothesis. Verified and speculative status are not distinguished.
- Encryption, wire packing, key exchange and proof of work: uninterpreted.
- Swarm.SwarmSync.NextRequests: the map of active fetches is a list in insertion order, and `next_wakeup` is left out.
- Schema: strings, floats, characters, 128-bit integers, flat structs, bit flags and recursive types; lists of one-byte types are their bytes; maps are their entries in wire order, so a `HashMap`, which is written back in its own iteration order (tox-proto/src/lib.rs:1255-1267), is not covered by the byte-for-byte claims; explicit enum discriminants are positions; collections have fewer than 2^32 elements.
- Evolution.Evolve: its condition is sufficient; it is exact for schemas without catch-all variants and for data without empty arrays (`EvolveExactly`). A catch-all variant can read an empty array and the value behind it as one (`EmptyHeaderReadsOn`), and for data that holds both an oversize map and empty arrays no converse is stated.
- Recursion depth and memory limits of the readers.
- The toxcore bindings, terminal client, bots, benchmarks and visualisation.
