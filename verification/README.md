# Verification of the UniBus core

A Dafny model of the parts of UniBus that carry its guarantees, with proofs over every run:

- **Reliable transport.** A session between two nodes over a network that drops, duplicates and reorders datagrams:
  sequence numbers stamped into frame bytes, the retransmit queue, the 1024-bit dedup window kept as words, SACK,
  credits, timeouts; above it the verb handler with execution records and the response cache.
- **Managed memory.** The home's coherence manager with leases and epochs, each reader's region table, fetch agent,
  LRU cache pool and bump allocator, and the single-writer multi-reader protocol they form together.
- **Memory regions.** The lifecycle of a region under every interleaving of handlers and deregister calls, the aligned
  allocator, address lookup and the synchronous verbs over device bytes.
- **Codecs.** Data frames together with in-place patching, ACK payloads, and the control message stream.

Objects that the program updates in place are classes. Their methods are proved equal to functions on values, and the
theorems are about those functions. Protocols are step functions in which an impossible step changes nothing, so a
theorem about all step sequences is a theorem about all runs. Clock readings, device contents, network behaviour and
eviction ties are parameters of the steps.

`dafny verify dfyconfig.toml` checks everything.

## What does not hold, and exactly when it does

- Write, WriteImm, Send and response frames that first arrive past a gap are acknowledged and never delivered (a later
  copy of a ReadReq or an atomic is handed up as a duplicate). The repository's README.md (line 419) says they
  are buffered and delivered when the gap is filled; the code does neither. `Delivery.HistoryExactIffInOrder` gives
  the exact condition, `Delivery.AcknowledgedButLost` a run.
- A duplicate atomic is executed again once 1024 later requests are recorded: `VerbHandler.AtMostOnceIffTimely`, and on
  a transport run `EndToEnd.LateDuplicateOverTransport`. Writes are not affected: `EndToEnd.WritesExecuteOnce`.
- Under the documented fetch rule (docs/DESIGN.md, line 728) alone, a late INVALIDATE_ACK can strike a node that has
  fetched again, and it then hits on stale content (`CoherenceProtocol.StaleHit`). The protocol is coherent when the
  home also waits for the node's outstanding acknowledgements, and only then: `CoherenceProtocol.ServeIsSafeIff`.
- An epoch does not identify a writer (`Coherence.TwoWritersOneEpoch`). `Coherence.SharedEpochIff` says exactly when two
  grants share one, and `Coherence.SharedEpochMeansOvertaken` that the earlier lease was then overtaken.
- deregister_async can return Ok although the counter was never zero past the CAS (`MrLifecycle.OkMeansDrainedIff`,
  `MrLifecycle.OkBeforeDrained`), and it can return Ok while a handler holds the region even when the counter was zero
  (`MrLifecycle.OkWhileEntering`). `MrLifecycle.OkMeansIdleIff` says exactly when Ok means that nobody is left.
- Credits do not cap the frames in flight: every duplicate a receiver sees returns a credit that was not spent
  (`Credits.RepeatBuysCredit`). `Credits.CapExceededIff` gives the exact condition.
- The cache pool's byte counter drifts when a fetch completes for a region that is still cached, as two racing misses do
  (`FetchAgent.RacingMissesLeak`); it is exact iff that never happened: `FetchAgent.ExactIffNoOverwrite`.
- The synchronous verbs do not check the length against the region: `MrTable.WriteSparesOthersIff`.
- Storing a key again in a full response cache evicts another entry before it replaces
  (`ReadCacheRuns.StoringAgainEvicts`), so a response is safe only while fewer than capacity - 1 other keys are named:
  `ReadCacheRuns.RecentIsSafe`.
- A second registration of an allocator over placed bytes breaks placement (`Placement.RegisteredTwice`), and only such a
  one: `Placement.RegistrationSafeIff`.
- With window size 0 nothing is ever recorded as seen: `Dedup.InOrderIsRecorded`.
- A control payload above 1,000,000 bytes ends the reading of the connection: `ControlCodec.StreamExactIff`,
  `ControlCodec.LargeResponseStops`.

## Model

| member | source | states |
|---|---|---|
| `Dedup.MarkAddsExactly` | crates/ub-transport/src/dedup.rs:69-92 | Marking adds exactly the given number, and only when it lies below the window's end; nothing seen is forgotten and the next expected number never goes back. |
| `Dedup.NextIsLeastUnseen` | crates/ub-transport/src/dedup.rs:69-92 | The next expected number is the least unseen one, in both directions. |
| `Dedup.CheckClassifies` | crates/ub-transport/src/dedup.rs:49-65 | For every number and every window size: already seen iff seen, in order iff new with everything below seen, out of order iff new, something below missing and marking records it, beyond iff new, something below missing and marking does not record it. |
| `Dedup.InOrderIsRecorded` | crates/ub-transport/src/dedup.rs:39-92 | An in-order number is recorded by the marking that follows iff the window size is not zero. |
| `Dedup.OutOfOrderKeepsNext` | crates/ub-transport/src/dedup.rs:69-92 | Marking past a gap only remembers the number; the next expected number stays. |
| `Dedup.ShiftAt` | crates/ub-transport/src/dedup.rs:140-153 | The word-by-word shift with its cross-word carry moves every bit of the whole bitset down by one. |
| `Dedup.SlideDropsNext` | crates/ub-transport/src/dedup.rs:140-153 | Sliding the words keeps them representing the same set of numbers, relative to the next base. |
| `Dedup.SetBitAddsOne` | crates/ub-transport/src/dedup.rs:130-138 | Or-ing one bit into the right word adds one number to the represented set. |
| `Dedup.DedupWindow.CheckSeq` | crates/ub-transport/src/dedup.rs:49-65 | The bitset object answers as the set view does. |
| `Dedup.DedupWindow.IsSeen` | crates/ub-transport/src/dedup.rs:93-103 | The bitset object reports exactly the numbers of the set view. |
| `Dedup.DedupWindow.IsBitSet` | crates/ub-transport/src/dedup.rs:121-128 | A set bit is exactly a member of the represented set; offsets past the window are clear. |
| `Dedup.DedupWindow.SetBit` | crates/ub-transport/src/dedup.rs:130-138 | Changes one word in place; the represented set grows by the one number, or not at all for an offset past the window. |
| `Dedup.DedupWindow.ShiftWords` | crates/ub-transport/src/dedup.rs:140-153 | The in-place loop shifts the whole bitset down by one bit. |
| `Dedup.DedupWindow.SlideOne` | crates/ub-transport/src/dedup.rs:140-153 | The in-place shift loop over the words slides the represented window by one. |
| `Dedup.DedupWindow.MarkAndAdvance` | crates/ub-transport/src/dedup.rs:69-92 | The advance loop terminates and leaves the object at the set view's marked and advanced window. |
| `Session.AckPartitions` | crates/ub-transport/src/session.rs:187-222 | A cumulative ACK splits the retransmit queue into what it removes and what stays; nothing is lost or duplicated, and exactly the acknowledged fire-and-forget entries go. |
| `Session.SackIsExact` | crates/ub-transport/src/session.rs:374-401 | Bit i of the SACK bitmap is set iff ack_seq + 1 + i was seen; bit 0 is never set. |
| `Session.AckSeqIsLargest` | crates/ub-transport/src/session.rs:374-401 | ack_seq is the largest n such that everything up to n was seen. |
| `Session.CompletesFirst` | crates/ub-transport/src/session.rs:226-233 | Completing a request takes out exactly the first entry that waits for its response. |
| `Session.CompletesNone` | crates/ub-transport/src/session.rs:226-233 | A response nobody waits for takes nothing out of the queue. |
| `Session.BackoffDoubles` | crates/ub-transport/src/session.rs:405-438 | The first retry waits two base intervals, each later one twice as long, up to 1024 base intervals. |
| `SessionObject.ReliableSession.AssignSeqTo` | crates/ub-transport/src/session.rs:141-181 | Stamps the number and the ACK_REQ bit into the frame array in place, as the patch on byte strings, and queues the stamped bytes. |
| `SessionObject.ReliableSession.ConsumeCredit` | crates/ub-transport/src/session.rs:283-289 | Takes one credit, or refuses when there is none. |
| `SessionObject.ReliableSession.ApplyAck` | crates/ub-transport/src/session.rs:187-222 | The loop that rebuilds the queue leaves exactly the entries an ACK does not cover; the granted credits are added with saturation, and an advancing ACK restarts the duplicate count. |
| `SessionObject.ReliableSession.CheckFastRetransmit` | crates/ub-transport/src/session.rs:338-365 | Counts the ACKs that acknowledge nothing new; names a number on the third, and restarts the count on an ACK that advances. FastResend says which number and when, over runs. |
| `SessionObject.ReliableSession.CompleteRequest` | crates/ub-transport/src/session.rs:226-233 | Removes the first entry that waits for this response, and reports whether there was one. |
| `SessionObject.ReliableSession.ScanTimeouts` | crates/ub-transport/src/session.rs:405-438 | The scan that updates expired entries in place equals the specification: back-off for each expired entry and a restarted duplicate count, or a dead session as soon as one has no retry left. |
| `SessionObject.ReliableSession.Receive` | crates/ub-transport/src/session.rs:237-256 | Counts the frame, classifies it and marks the window as the specification does. |
| `SessionObject.ReliableSession.MarkAsExecuted` | crates/ub-transport/src/session.rs:259-270 | Appends the execution record and drops the oldest beyond 1024. |
| `SessionObject.ReliableSession.IsExecuted` | crates/ub-transport/src/session.rs:273-275 | Reports exactly the recorded numbers. |
| `SessionObject.ReliableSession.GrantCredits` | crates/ub-transport/src/manager.rs:334-354 | An application grant never leads to a CREDIT frame: the two conditions of that branch exclude each other. |
| `SessionObject.ReliableSession.BuildAckPayload` | crates/ub-transport/src/session.rs:374-401 | Builds the ACK of the specification and resets the pending counters. |
| `SessionObject.ReliableSession.BuildSack` | crates/ub-transport/src/session.rs:374-401 | The 256-bit fill loop produces the SACK bitmap of the window. |
| `SessionObject.ReliableSession.KillSession` | crates/ub-transport/src/session.rs:368-371 | Marks the session dead and hands back every pending entry. |
| `Transport.WireAlways` | crates/ub-transport/src/manager.rs:183-225 | In every run over a network that drops, duplicates and reorders, queued and wire frames are the stamped bytes of their number. |
| `Reliability.NothingForgotten` | crates/ub-transport/src/session.rs:141-256 | In every run, while the sender is active, each stamped fire-and-forget frame is still queued with its exact bytes or has been seen by the receiver. |
| `Reliability.AcksAreTrue` | crates/ub-transport/src/session.rs:374-401 | In every run no ACK in flight covers an unseen number, and later ACKs never acknowledge less. |
| `Reliability.WireCopiesIdentical` | crates/ub-transport/src/session.rs:141-181 | In every run all wire copies that decode to one sequence number are the same bytes. |
| `Reliability.AckReportsReceiver` | crates/ub-transport/src/manager.rs:568-597 | Through building, framing, decoding: what the sender reads from an ACK's bytes is the receiver's true state, bit by bit, with all pending credits. |
| `ManagerObject.TransportManager.SendFrame` | crates/ub-transport/src/manager.rs:183-225 | The manager's send is the protocol's send step. |
| `ManagerObject.TransportManager.HandleDataFrame` | crates/ub-transport/src/manager.rs:389-487 | The data-frame handler is the protocol's receive step. Within the window either an ACK goes out or fewer than 8 receptions and 8 credits are pending; a frame in order draws one only if 7 of either were pending before; a frame goes up exactly when it is unsequenced, in order, or a repeated read or atomic. |
| `ManagerObject.TransportManager.HandleAckFrame` | crates/ub-transport/src/manager.rs:489-528 | The ACK handler is the protocol's ACK step; it resends exactly the queued frame numbered one past the ACK, and only on the third ACK in a row that acknowledges nothing new. |
| `AckPolicy.ReceptionAnswered` | crates/ub-transport/src/manager.rs:405-487 | What a live session does with a sequenced frame, in numbers: no ACK past the window; an immediate ACK for a repeat or past a gap, with a SACK only past a gap; for a frame in order an ACK iff 7 receptions or 7 credits were pending before it; the ACK returns all pending credits; repeats go up only for reads and atomics. |
| `AckPolicy.EightReceptionsAck` | crates/ub-transport/src/session.rs:451-453 | In every run any 8 receptions, none of them beyond the window, draw at least one ACK. |
| `AckPolicy.BeyondDrawsNone` | crates/ub-transport/src/manager.rs:464-466 | A reception beyond the window draws no ACK, so the condition of EightReceptionsAck is needed. |
| `AckPolicy.InOrderAckReturnsEight` | crates/ub-transport/src/manager.rs:470-486 | In every run the ACK drawn by a frame in order returns at least 8 credits. |
| `AckPolicy.EightInOrderReturnEight` | crates/ub-transport/src/manager.rs:470-486 | In every run, while frames come in order, each 8 draw an ACK and each ACK returns at least 8 credits. |
| `FastResend.NamesLeastUncovered` | crates/ub-transport/src/session.rs:338-365 | The number an ACK makes the sender resend is the least one the ACK does not cover. |
| `FastResend.ThirdStaleNames` | crates/ub-transport/src/session.rs:338-365 | In every run an ACK names a number iff it is the third that acknowledges nothing new since the last ACK that did, the last number named or the last timeout reported. |
| `FastResend.NamedWasMissing` | crates/ub-transport/src/manager.rs:509-516 | In every run the number named was unseen, and everything below it seen, when the ACK that names it was emitted. |
| `Resends.TransmissionsAccounted` | crates/ub-transport/src/manager.rs:85-117 | In every run a stamped frame has gone out once, plus once for each timeout reported for it and once for each ACK that named it while it was queued, always with the bytes stamped. |
| `Resends.WireIsTransmitted` | crates/ub-transport/src/manager.rs:103-116 | In every run the datagrams the network can deliver are exactly those that were transmitted. |
| `Resends.DeadSendsNothing` | crates/ub-transport/src/manager.rs:86-101 | In every run a dead sender has an empty queue and sends nothing. |
| `ManagerObject.TransportManager.RetransmitDue` | crates/ub-transport/src/manager.rs:85-117 | The retransmission task's visit is the protocol's timeout step: exactly the queued frames of the numbers reported go out, in order. |
| `SessionObject.ReliableSession.FindEntry` | crates/ub-transport/src/session.rs:441-443 | Returns the queued entry under a number, or None when there is none. |
| `Delivery.AtMostOnceInOrder` | crates/ub-transport/src/manager.rs:389-467 | In every run Write, WriteImm and Send frames reach the handler at most once each and in strictly increasing order. |
| `Delivery.SameNumberSameFrame` | crates/ub-transport/src/manager.rs:389-467 | Whatever reaches the handler under one number is one and the same frame, the one that was stamped. |
| `Delivery.GapArrivalIsLost` | crates/ub-transport/src/session.rs:250-253 | A number first seen past a gap never reaches the handler for a Write, WriteImm or Send, in any continuation. |
| `Delivery.DeliveredIffInOrder` | crates/ub-transport/src/manager.rs:389-467 | Of the seen numbers exactly those that did not arrive past a gap were delivered on first arrival. |
| `Delivery.HistoryExactIffInOrder` | crates/ub-transport/src/manager.rs:389-467 | The delivered history is exactly 1..next_expected-1, with nothing held back, iff every first copy arrived in order. |
| `Delivery.AcknowledgedButLost` | crates/ub-transport/src/manager.rs:461-463 | A concrete run on two actual write frames: the sender drops both as acknowledged although the second is never delivered, in any continuation. |
| `Delivery.LosesSecond` | crates/ub-transport/src/manager.rs:461-463 | The same for any two write frames. |
| `Retransmission.ScanSpends` | crates/ub-transport/src/session.rs:405-438 | A scan kills exactly when an expired entry has no retry left; otherwise the retry budget of the queue drops by one for each expired entry. |
| `Retransmission.DeadWithinBudget` | crates/ub-transport/src/session.rs:405-438 | With no new sends or completions the session is dead after at most budget many scans that find an expired entry. |
| `Retransmission.ReportedAtMost` | crates/ub-transport/src/session.rs:405-438 | In every run the scan reports a number at most max_retries times over its life. |
| `Credits.CreditsConserved` | crates/ub-transport/src/session.rs:237-289 | In every run credits held, pending, in flight or lost and spent balance the initial credits, one per received frame, application grants and what duplicated ACKs credited again. |
| `Credits.FramesConserved` | crates/ub-transport/src/session.rs:237-289 | The same ledger over distinct frames: frames never seen, credits held and credits pending balance the initial credits plus application grants, duplicated ACK grants and repeated receptions. |
| `Credits.UnreturnedCapped` | crates/ub-transport/src/manager.rs:204-211 | Without application grants, duplicated ACKs and repeated receptions, the frames whose credit has not come back, unseen or with the credit on its way, never exceed the initial credits. |
| `Credits.CapExceededIff` | crates/ub-transport/src/session.rs:237-242 | With an active sender, further sends can leave more frames unseen than there were initial credits iff more extra credits entered circulation than are pending. |
| `Credits.RepeatBuysCredit` | crates/ub-transport/src/session.rs:237-242 | A concrete run, for every initial credit count below the u32 maximum, in which one frame received twice breaks the cap. |
| `Credits.NoClipping` | crates/ub-transport/src/session.rs:278-281 | The saturating add clips nothing while the credits in circulation fit a u32. |
| `ReadCache.InsertEvictsLru` | crates/ub-transport/src/read_cache.rs:67-86 | Inserting drops expired entries and at most one live one: the least recently used, and only when the live entries fill the capacity. |
| `ReadCache.InsertBounded` | crates/ub-transport/src/read_cache.rs:67-86 | The cache never exceeds its capacity, or one entry where the capacity is zero. |
| `ReadCache.StoredIsFound` | crates/ub-transport/src/read_cache.rs:48-86 | A stored response is found iff it is at most ttl old. |
| `ReadCache.HitMovesLast` | crates/ub-transport/src/read_cache.rs:48-64 | A hit keeps the response and its age and makes the key the last to be evicted; a miss leaves no entry; other entries are untouched. |
| `ReadCacheRuns.FoundIffKept` | crates/ub-transport/src/read_cache.rs:48-86 | After any stores and lookups, a lookup returns the response last stored under the key iff it is at most ttl old and no store since evicted it. |
| `ReadCacheRuns.NeverStored` | crates/ub-transport/src/read_cache.rs:48-64 | A lookup under a key never stored returns nothing. |
| `ReadCacheRuns.RecentIsSafe` | crates/ub-transport/src/read_cache.rs:67-86 | A stored response is not evicted while fewer than capacity - 1 other keys have been named since. |
| `ReadCacheRuns.StoringAgainEvicts` | crates/ub-transport/src/read_cache.rs:67-86 | The bound is sharp: storing a present key again in a full cache evicts another one. |
| `ReadCache.ReadResponseCache.Lookup` | crates/ub-transport/src/read_cache.rs:48-64 | Returns the stored response iff there is one at most ttl old; a hit refreshes its order stamp, a miss drops the entry. |
| `ReadCache.ReadResponseCache.FindLruKey` | crates/ub-transport/src/read_cache.rs:109-114 | The linear search returns a least recently used key. |
| `ReadCache.ReadResponseCache.Store` | crates/ub-transport/src/read_cache.rs:67-86 | Insert of the specification: afterwards the response is stored under the key with the time of the call. |
| `VerbHandler.AtMostOnceIffTimely` | crates/ub-dataplane/src/lib.rs:522-551 | No write or atomic is executed twice iff every duplicate is handled before 1024 later requests were recorded. |
| `VerbHandler.FaaAccounted` | crates/ub-dataplane/src/lib.rs:751-826 | After any run with duplicates an FAA-only word is its initial value plus the adds of the executions modulo 2^64; with timely duplicates each sequence number counts once. |
| `VerbHandler.ResponsesIdentical` | crates/ub-dataplane/src/lib.rs:522-551 | With timely duplicates all success responses for one atomic request are identical. |
| `WordHistory.WordIsLastEffect` | crates/ub-dataplane/src/lib.rs:673-826 | In every run a word is what the last execution that took effect on it left: a write its value, an add the sum, a compare-and-swap that found the expected value its new value. |
| `WordHistory.WordUntouched` | crates/ub-dataplane/src/lib.rs:673-826 | In every run a word on which nothing took effect keeps its initial value. |
| `WordHistory.FoundWhatWasLeft` | crates/ub-dataplane/src/lib.rs:710-723 | In every run each execution finds in its word what the executions before it left, and fails iff there is no such word. |
| `WordHistory.RepliesAreTrue` | crates/ub-dataplane/src/lib.rs:606-826 | In every run, however late duplicates come, a reply to an atomic carries the word one of its own executions found, and a reply to a read the word at some point of the run. |
| `WordHistory.ExecutionsAnswered` | crates/ub-dataplane/src/lib.rs:724-749 | In every run each execution of an atomic on an existing word is answered with the word it found. |
| `WordHistory.OneSwapSucceeds` | crates/ub-core/src/device/memory.rs:75-86 | Of several compare-and-swaps that expect one value and would change it, at most one is answered with that value as long as nothing puts it back. |
| `DuplicateAnswers.DuplicateAnswered` | crates/ub-dataplane/src/lib.rs:522-551 | A duplicate atomic gets the original answer and changes nothing when it comes within the time to live, after fewer than 1024 further arrivals under fewer than capacity - 1 other ids. |
| `DuplicateAnswers.ReadRepeats` | crates/ub-dataplane/src/lib.rs:606-671 | A read asked again within the time to live gives its first answer, whatever the memory holds by then. |
| `VerbHandler.LateDuplicateRuns` | crates/ub-transport/src/session.rs:259-275 | A concrete run: after 1025 increments a duplicate of the first is executed again. |
| `VerbHandler.LateDuplicateAfterTwice` | crates/ub-transport/src/session.rs:259-275 | The same where every increment also arrived a second time at once, which executes nothing. |
| `EndToEnd.HandlerRunsStampedRequests` | crates/ub-dataplane/src/lib.rs:136-150 | In every run over any network, handling what the transport hands up is running the requests the sender stamped, each under its own number. |
| `EndToEnd.OperandsOf` | crates/ub-dataplane/src/lib.rs:673-826 | The operands of a request are the big-endian words of its payload: expected value then new value, addend, or value written. |
| `EndToEnd.ExecutionsAccounted` | crates/ub-dataplane/src/lib.rs:487-551 | End to end over any network: every execution is of the request stamped under its number, none repeats iff duplicates are timely, and an FAA-only word is its initial value plus the executed adds. |
| `EndToEnd.ResponsesIdenticalOverTransport` | crates/ub-dataplane/src/lib.rs:522-551 | End to end over any network, with unique request ids and timely duplicates, all success responses for one stamped atomic are identical. |
| `EndToEnd.WritesExecuteOnce` | crates/ub-dataplane/src/lib.rs:501-508 | End to end over any network and however late duplicates come, no write is executed twice. |
| `EndToEnd.LateDuplicateOverTransport` | crates/ub-transport/src/session.rs:259-275 | The late duplicate on an actual transport run, from a single initial credit on: 1025 increments sent, each received twice and acknowledged, then the first delivered again, and the word ends at 1026. |
| `ResponderObject.Responder.HandleVerbFrame` | crates/ub-dataplane/src/lib.rs:487-567 | The responder object's dispatch over execution records and response cache is one step of the handler specification. |
| `ResponderObject.Responder.HandleRead` | crates/ub-dataplane/src/lib.rs:606-671 | Answers a read from the cache or from memory, as the specification does. |
| `ResponderObject.Responder.ResendCached` | crates/ub-dataplane/src/lib.rs:522-535 | Answers a duplicate atomic from the cache while the response is still there. |
| `ResponderObject.Responder.RunRequest` | crates/ub-dataplane/src/lib.rs:673-826 | Executes one write or atomic: a write puts its value, an add the sum modulo 2^64, a compare-and-swap its new value iff the word was the expected one; an atomic is answered with the word before. |
| `FrameCodec.RoundTrip` | crates/ub-wire/src/codec.rs:12-129 | A frame whose fields have their widths decodes to itself iff its magic and version are right, it has an extension header iff it is DATA, and imm is present iff HAS_IMM. |
| `FrameCodec.DecodeThenEncode` | crates/ub-wire/src/codec.rs:65-176 | Decoding is total; whatever decodes is well-formed, and re-encoding gives the same bytes iff undefined flag bits and reserved bytes were zero. |
| `FrameCodec.PatchCommutes` | crates/ub-transport/src/session.rs:141-166 | On every byte string, patching the sequence number commutes with decoding: only stream_seq and ACK_REQ change, and failures stay the same failure. |
| `FrameCodec.PatchAsksForAck` | crates/ub-transport/src/session.rs:141-166 | A patched frame that decodes carries the number and ACK_REQ; every other flag, field and the payload are as before. |
| `FrameCodec.AckRoundTrip` | crates/ub-wire/src/codec.rs:179-218 | The peer decodes from an ACK frame exactly the payload that was built, with and without SACK. |
| `FrameCodec.CodesOnWire` | crates/ub-core/src/types.rs:35-45 | Magic, version, frame type and verb stand on the wire under their assigned codes at fixed positions. |
| `ControlCodec.MessageRoundTrip` | crates/ub-control/src/message.rs:898-931 | Every control message of all 23 types decodes to itself, including snapshots and profile lists. |
| `ControlCodec.DecodedIsInRange` | crates/ub-control/src/message.rs:898-931 | Whatever decodes has a known type and fields in range: enum bytes below their limits, three permission bits, UTF-8 text, as many records as the count says. |
| `ControlCodec.ValidUtf8Iff` | crates/ub-control/src/message.rs:126-130 | Text is valid iff it is the encoding of a sequence of Unicode scalar values. |
| `ControlCodec.EntriesReadBack` | crates/ub-control/src/message.rs:325-369 | A list of records, with or without a length before each, decodes to the same list and leaves exactly the bytes behind it. |
| `ControlCodec.RecordReadBack` | crates/ub-control/src/message.rs:258-306 | A record of integers, enums, permission bits, strings and byte strings decodes to the same values and leaves exactly the bytes behind it. |
| `ControlCodec.SegmentFrame` | crates/ub-control/src/control.rs:399-437 | Whatever type byte and payload, a frame within the limit yields its message, or nothing if it does not decode, and the reader continues right behind it. |
| `ControlCodec.StreamExactIff` | crates/ub-control/src/control.rs:399-437 | Reading the concatenated encodings returns exactly the messages sent iff every payload is at most 1,000,000 bytes. |
| `ControlCodec.LargeResponseStops` | crates/ub-control/src/message.rs:675-683 | A well-formed FETCH_RESP with a 1,000,001-byte payload field: the reader yields nothing from there on. |
| `ControlCodec.CutStream` | crates/ub-control/src/control.rs:399-437 | A stream cut anywhere inside a message yields exactly the messages before it. |
| `ControlCodec.ReadLoop` | crates/ub-control/src/control.rs:399-437 | The reader loop computes the segmentation of the stream. |
| `ControlCodec.EncodeList` | crates/ub-control/src/message.rs:443-451 | The append loop produces count and entries of the list encoding. |
| `ControlCodec.DecodeList` | crates/ub-control/src/message.rs:454-466 | The count loop over a moving cursor is the list decoder, including where it fails. |
| `SubAlloc.SubAllocator.AllocBytes` | crates/ub-managed/src/sub_alloc.rs:24-35 | Sequentially: hands out the next bytes of the pool or None when they do not fit. |
| `SubAllocThreads.AllocationsDisjoint` | crates/ub-managed/src/sub_alloc.rs:24-35 | Under any interleaving of threads in the load and compare-exchange loop, every successful allocation lies in the pool and ends before each later one begins, and the sizes sum to the counter. |
| `SubAllocThreads.AllocationsLinearise` | crates/ub-managed/src/sub_alloc.rs:24-35 | Every interleaving gives the offsets and the pool of making the successful allocations one after the other, in the order of their compare-exchanges. |
| `SubAllocThreads.CasFailsOnlyIfOtherWon` | crates/ub-managed/src/sub_alloc.rs:24-35 | A compare-exchange fails only because another thread's succeeded since this thread's load. |
| `SubAllocThreads.AloneFinishes` | crates/ub-managed/src/sub_alloc.rs:24-35 | A thread left alone finishes its call and gets the next free bytes iff they suffice. |
| `SubAllocThreads.EndsOnlyAnswered` | crates/ub-managed/src/sub_alloc.rs:24-35 | A call ends only with its bytes granted or when they do not fit at a load; a lost compare-exchange goes round again with the same request. |
| `Placement.PlacementsDisjoint` | crates/ub-managed/src/placer.rs:63-191 | In every run in which no registration covers bytes placed before, all placements ever returned for a device are disjoint, even after free. |
| `Placement.OnceIsSafe` | crates/ub-managed/src/placer.rs:51-54 | Registering each allocator once is such a run. |
| `Placement.UnsafeRegistrationOverlaps` | crates/ub-managed/src/placer.rs:51-54 | A registration over placed bytes leads to overlapping placements at the next full-size request. |
| `Placement.RegistrationSafeIff` | crates/ub-managed/src/placer.rs:51-54 | After safe registrations, one more keeps all placements apart, whatever is placed and freed afterwards, iff its range touches nothing placed on the device before. |
| `Placement.RegisteredTwice` | crates/ub-managed/src/placer.rs:51-54 | A concrete run: an allocator registered, used up, registered again and used again gives overlapping placements. |
| `Placement.IdsDistinct` | crates/ub-managed/src/placer.rs:63-118 | Ids issued by place are strictly increasing, hence distinct. |
| `Placement.PlacedAsAsked` | crates/ub-managed/src/placer.rs:63-169 | A request is met iff the chosen device has room, by a placement as asked for at the next free byte. |
| `Placement.RecordIsLatest` | crates/ub-managed/src/placer.rs:63-191 | In every run the record under an id is the last placement returned under it, unless it was freed since. |
| `Placement.Placer.RegisterSubAllocator` | crates/ub-managed/src/placer.rs:51-54 | The placer object's registration is the register step. |
| `Placement.Placer.PlaceRegion` | crates/ub-managed/src/placer.rs:63-118 | The placer object's place is the place step. |
| `Placement.Placer.PlaceRegionWithId` | crates/ub-managed/src/placer.rs:121-169 | The placer object's place_with_id is the corresponding step. |
| `Placement.Placer.FreeRegion` | crates/ub-managed/src/placer.rs:172-191 | Forgets the placement but gives no bytes back. |
| `CachePool.RemoveSound` | crates/ub-managed/src/cache_pool.rs:99-106 | Removing an entry keeps the accounting and its exactness. |
| `CachePool.InsertSound` | crates/ub-managed/src/cache_pool.rs:72-96 | Inserting keeps: live bytes at most the counter, the counter at most the limit, live entries disjoint; the counter drifts from the live bytes by exactly the bytes it overwrites. |
| `CachePool.InsertExactIff` | crates/ub-managed/src/cache_pool.rs:92-93 | From an exact counter, an insertion leaves it exact iff it fails, or the key is not live once room has been made, or the entry replaced is empty. |
| `CachePool.InsertSucceedsIff` | crates/ub-managed/src/cache_pool.rs:72-96 | After the eviction loop an insertion succeeds iff the drift and the new entry fit the limit and the allocator, which takes nothing back, still has the bytes. |
| `CachePool.EvictsLruPrefix` | crates/ub-managed/src/cache_pool.rs:72-134 | The eviction loop removes exactly a least recently used prefix, and stops as soon as the entry fits. |
| `FetchAgent.AgreementAlways` | crates/ub-managed/src/fetch_agent.rs:41-163 | In every run of agent operations, region table and cache pool agree and the pool's accounting is sound. |
| `FetchAgent.DriftAccumulates` | crates/ub-managed/src/cache_pool.rs:72-134 | In every run the counter exceeds the live bytes by exactly the bytes overwritten so far; no operation takes them off again. |
| `FetchAgent.ExactIffNoOverwrite` | crates/ub-managed/src/cache_pool.rs:72-134 | In every run the counter equals the live bytes iff no completed fetch replaced a non-empty entry that was still cached. |
| `FetchAgent.RacingMissesLeak` | crates/ub-managed/src/fetch_agent.rs:78-91 | A concrete run: two misses of one 8-byte region both complete, and the counter stands at 16 with 8 bytes live. |
| `FetchAgent.HitIffShared` | crates/ub-managed/src/fetch_agent.rs:41-74 | In every run a read hits exactly on Shared regions, under the table's epoch, and reads home exactly on Home regions. |
| `FetchAgent.EvictionSparesHome` | crates/ub-managed/src/cache_pool.rs:110-134 | In every run, filling the cache never demotes a Home region, whatever it evicts. |
| `Invalidation.InvalidateDrops` | crates/ub-managed/src/fetch_agent.rs:95-100 | Invalidating removes the entry and its bytes, keeps every other entry and row, and makes the row Invalid. |
| `Invalidation.ReceiveDropsIff` | crates/ub-managed/src/fetch_agent.rs:128-163 | An invalidation is obeyed iff the region is Shared under no later epoch; then entry and bytes go and the row takes the new epoch; otherwise the pool is untouched and an Invalid row keeps the larger epoch. |
| `Invalidation.ReadCases` | crates/ub-managed/src/fetch_agent.rs:41-74 | In any state, also where table and pool disagree: a read hits iff the row is Shared and has an entry not older than it; an older entry is dropped and the row made Invalid; nothing else is removed. |
| `Invalidation.InvalidCachedIsShadowed` | crates/ub-managed/src/fetch_agent.rs:41-163 | In every run a region that is Invalid and still has an entry was cached when a table insert made it Invalid. |
| `Invalidation.RefetchStaysExact` | crates/ub-managed/src/cache_pool.rs:72-106 | Fetching a region, invalidating it and fetching it again leaves the byte counter exact. |
| `Invalidation.InFlightStep` | crates/ub-managed/src/fetch_agent.rs:78-114 | A region is in flight from its mark until a fetch of it completes; nothing else changes the list. |
| `Invalidation.InFlightOnce` | crates/ub-managed/src/fetch_agent.rs:109-114 | In every run no region is in flight twice. |
| `Invalidation.ReadIsSpared` | crates/ub-managed/src/cache_pool.rs:61-68 | An entry just read is not the next victim while another was last used before. |
| `Invalidation.StoredIsSpared` | crates/ub-managed/src/cache_pool.rs:72-96 | A stored entry is the one asked for, keeps the survivors, and is not the next victim while an older one survives. |
| `ReaderNode.RegionTable.SetRegionState` | crates/ub-managed/src/region.rs:41-49 | Overwrites the state of a known region in place and reports whether it is known. |
| `ReaderNode.RegionTable.SetRegionEpoch` | crates/ub-managed/src/region.rs:52-60 | Overwrites the epoch of a known region in place and reports whether it is known. |
| `ReaderNode.PoolObject.Lookup` | crates/ub-managed/src/cache_pool.rs:61-68 | Returns the entry and refreshes its access time in place. |
| `ReaderNode.PoolObject.RemoveEntry` | crates/ub-managed/src/cache_pool.rs:99-106 | Removes the entry and takes its bytes off the counter. |
| `ReaderNode.PoolObject.FindLru` | crates/ub-managed/src/cache_pool.rs:110-120 | The search over the entries returns a least recently used one. |
| `ReaderNode.PoolObject.EvictLru` | crates/ub-managed/src/cache_pool.rs:110-134 | Evicts a least recently used entry and marks its region Invalid, or reports an empty pool. |
| `ReaderNode.PoolObject.EvictUntilFits` | crates/ub-managed/src/cache_pool.rs:72-82 | The eviction loop terminates with the entry fitting or the pool empty; its victims form a run of least recently used entries. |
| `ReaderNode.PoolObject.InsertEntry` | crates/ub-managed/src/cache_pool.rs:72-96 | The pool object's insert is the insert of the specification, failing when the entry cannot fit or the allocator is exhausted. |
| `ReaderNode.Fetcher.ReadRegion` | crates/ub-managed/src/fetch_agent.rs:41-74 | The agent object's read_va, with its touch and its removal of an outdated entry. |
| `ReaderNode.Fetcher.FinishFetch` | crates/ub-managed/src/fetch_agent.rs:78-91 | The agent object's complete_fetch: pool, table state, table epoch and in-flight list together. |
| `ReaderNode.Fetcher.Invalidate` | crates/ub-managed/src/fetch_agent.rs:95-100 | Removes the entry, takes its length off the byte counter and sets the table state to Invalid; no other entry changes. |
| `ReaderNode.Fetcher.OnInvalidate` | crates/ub-managed/src/fetch_agent.rs:128-163 | Obeys iff the region is Shared under an epoch not above the new one, and removes its entry only then. |
| `Coherence.WriterExclusion` | crates/ub-managed/src/coherence.rs:160-258 | In every run with a monotone clock, the first grant to another node comes after the holder released, after the region was unregistered or registered again, or after the last refreshed deadline. |
| `Coherence.RefusedUntilDeadline` | crates/ub-managed/src/coherence.rs:160-218 | As long as calls come in time and the holder does not release, the holder keeps the lock and every other node is denied. |
| `Coherence.EpochsNeverDecrease` | crates/ub-managed/src/coherence.rs:223-258 | A registered region's epoch never decreases, in any run. |
| `Coherence.SharedEpochMeansOvertaken` | crates/ub-managed/src/coherence.rs:160-329 | Two grants to different nodes carry one epoch only if the earlier lease ran out and was overtaken before any sweep. |
| `Coherence.SharedEpochIff` | crates/ub-managed/src/coherence.rs:160-329 | Two grants of a region carry the same epoch iff no call between them raised it: no explicit bump, no release by the holder, no sweep past the deadline. |
| `Coherence.TwoWritersOneEpoch` | crates/ub-managed/src/coherence.rs:160-218 | A concrete run: a lease runs out, a second node takes the lock before any sweep, and both grants carry epoch 0. |
| `Coherence.OvertakingRepeatsEpoch` | crates/ub-managed/src/coherence.rs:160-218 | Every overtaking grant does repeat the epoch in force. |
| `Coherence.QueueIsAllDenials` | crates/ub-managed/src/coherence.rs:177-186 | The wait queue is the list of all denials: nothing ever serves it. |
| `HomeRecords.FoundIffBound` | crates/ub-managed/src/coherence.rs:125-134 | In every run a call finds a region iff it was last registered and not unregistered since; an acquire answers NotFound otherwise. |
| `HomeRecords.ReaderIffAdded` | crates/ub-managed/src/coherence.rs:264-285 | In every run a node is a reader of a known region iff it was last added, with no acknowledgement and no registration since. |
| `HomeRecords.OthersKept` | crates/ub-managed/src/coherence.rs:125-329 | A call about one region leaves the others alone; a sweep ends exactly the leases that ran out. |
| `HomeRecords.AcquireAnswersTruly` | crates/ub-managed/src/coherence.rs:160-218 | A denial names another node whose lease still runs; a grant carries the epoch in force and gives the caller the lock for the lease time. |
| `HomeRecords.EpochIsCount` | crates/ub-managed/src/coherence.rs:223-329 | In every run without a new registration the epoch is the initial one plus the number of bumps, releases by the holder and sweeps past its deadline. |
| `HomeRecords.RegisterStartsAfresh` | crates/ub-managed/src/coherence.rs:125-128 | A registration starts at epoch 0 without readers or writer, whatever was on record. |
| `Coherence.CoherenceManager.RegisterRegion` | crates/ub-managed/src/coherence.rs:125-128 | Starts the region afresh at epoch 0, also when it was registered before. |
| `Coherence.CoherenceManager.DropRegion` | crates/ub-managed/src/coherence.rs:131-134 | Drops the region and answers whether it was known. |
| `Coherence.CoherenceManager.TryAcquire` | crates/ub-managed/src/coherence.rs:160-218 | The manager object's acquire, with grant, refresh, denial and unknown region. |
| `Coherence.CoherenceManager.TryRelease` | crates/ub-managed/src/coherence.rs:223-258 | Only the holder releases; the epoch is bumped. |
| `Coherence.CoherenceManager.CheckLeaseExpiry` | crates/ub-managed/src/coherence.rs:311-329 | The sweep loop ends exactly the expired leases, bumps their epochs and reports each expired holder once. |
| `Coherence.CoherenceManager.OnInvalidateAck` | crates/ub-managed/src/coherence.rs:264-273 | Removes the reader and answers whether the region is known. |
| `Coherence.CoherenceManager.AddReaderNode` | crates/ub-managed/src/coherence.rs:276-285 | Adds the reader and answers whether the region is known. |
| `CoherenceProtocol.HitsAreFresh` | crates/ub-managed/src/fetch_agent.rs:41-163 | In every run of home and readers over FIFO channels, a node in state Shared holds exactly the home's content and is in its reader set. |
| `CoherenceProtocol.NoInvalidationRejected` | crates/ub-managed/src/fetch_agent.rs:128-163 | In every run an INVALIDATE that reaches a node leaves it without a copy; none is rejected as old while a copy is held. |
| `CoherenceProtocol.WriterIsAlone` | crates/ub-managed/src/coherence.rs:160-285 | In every run, when a write changes the content no node holds a copy. |
| `CoherenceProtocol.ServeIsSafeIff` | crates/ub-managed/src/coherence.rs:264-285 | In any reachable state without a writer, serving a waiting fetch keeps every later state coherent iff the node owes no acknowledgement. |
| `CoherenceProtocol.OwedServeBreaks` | crates/ub-managed/src/coherence.rs:264-273 | Serving a node that owes one always has a continuation in which it holds a copy the home has forgotten. |
| `CoherenceProtocol.StaleHit` | crates/ub-managed/src/coherence.rs:264-285 | A concrete run without that rule that ends in a stale cache hit. |
| `CoherenceProtocol.InvalidateRefines` | crates/ub-managed/src/fetch_agent.rs:128-163 | The protocol's reaction to an INVALIDATE is the fetch agent's, on the table entry. |
| `CoherenceProtocol.FetchRefines` | crates/ub-managed/src/fetch_agent.rs:78-91 | The protocol's reaction to a fetch answer is the fetch agent's, on the table entry. |
| `CoherenceProtocol.ManagerRefines` | crates/ub-managed/src/coherence.rs:160-329 | The protocol's acquire, release, sweep, serving of a fetch and receipt of an acknowledgement change the home record as the manager's calls do. |
| `MrLifecycle.CounterExact` | crates/ub-core/src/mr.rs:42-57 | Under every interleaving the in-flight counter is the number of handlers between taking and returning a reference, on every path of every verb. |
| `MrLifecycle.HoldsThroughChecks` | crates/ub-dataplane/src/lib.rs:569-962 | A handler that passes every check holds its reference through exactly the checks of its verb: two for reads and writes, three for a write with immediate, four for atomics. |
| `MrLifecycle.OneWinnerOneRevoke` | crates/ub-core/src/mr.rs:220-302 | Under every interleaving at most one deregister call wins, it emits one revocation, and a region that has left the table has had its revocation emitted. |
| `MrLifecycle.NoLateEntrants` | crates/ub-core/src/mr.rs:42-49 | A handler that holds a reference once the region is revoked had read Active before. |
| `MrLifecycle.OkMeansDrainedIff` | crates/ub-core/src/mr.rs:257-302 | Ok from deregister_async implies a zero counter at some instant past the CAS, in every continuation, iff at the CAS the counter is zero or no handler has a notification outstanding. |
| `MrLifecycle.OkBeforeDrained` | crates/ub-core/src/mr.rs:51-64 | A concrete interleaving in which that promise fails. |
| `MrLifecycle.OkMeansIdleIff` | crates/ub-core/src/mr.rs:254-302 | Whenever deregister_async has returned Ok no handler holds the region, in every continuation, iff at the CAS no handler is between reading Active and taking its reference and (the counter is zero or no notification is outstanding). |
| `MrLifecycle.OkWhileEntering` | crates/ub-core/src/mr.rs:42-49 | A concrete interleaving with the counter at zero at the CAS in which Ok comes back while a handler holds the region. |
| `MrLifecycle.AnswersAreTrue` | crates/ub-core/src/mr.rs:220-302 | Under every interleaving Ok and Timeout mean that the region has left the table, NotThere that it was not there, Busy that it was no longer active; Timeout comes only when the time ran out. |
| `MrLifecycle.WaitCanEnd` | crates/ub-core/src/mr.rs:274-302 | A deregister call that waits can always run out of time; it then releases the region, takes it out of the table and returns Timeout. |
| `UbAddress.FieldsReadBack` | crates/ub-core/src/addr.rs:8-35 | Every field of an address reads back as it was put in. |
| `UbAddress.WithOffsetKeepsRest` | crates/ub-core/src/addr.rs:37-40 | Replacing the offset keeps every other field. |
| `UbAddress.Layout` | crates/ub-core/src/addr.rs:8-15 | Pod, node, device, offset and reserved bits stand at bits 112, 96, 80, 16 and 0. |
| `MrTable.AlignUpIsLeastMultiple` | crates/ub-core/src/mr.rs:111-115 | The mask align-up gives the least multiple of the alignment at or above the cursor, for every power of two. |
| `MrTable.RegionsDisjoint` | crates/ub-core/src/mr.rs:155-252 | In every run of register and deregister the live regions of a device are 8-aligned and pairwise disjoint. |
| `MrTable.HitIsUnique` | crates/ub-core/src/mr.rs:311-327 | At most one live region answers an address. |
| `MrTable.RegisteredAnswers` | crates/ub-core/src/mr.rs:155-215 | A new region answers exactly the addresses of its bytes on its node and device, with the length and permissions asked for; other regions stay. |
| `MrTable.DeregisteredIsGone` | crates/ub-core/src/mr.rs:220-252 | A deregistered region is gone, the others stay, and its handle is not used again by a later registration. |
| `MrTable.FittingWriteIsLocal` | crates/ub-core/src/verbs.rs:17-24 | A write that fits its region leaves every other region of the device unchanged. |
| `MrTable.WriteSparesOthersIff` | crates/ub-core/src/verbs.rs:17-24 | A write of n bytes inside a region leaves the others alone, whatever the bytes, iff it ends before the next live region. |
| `MrTable.NeighbourOverrun` | crates/ub-core/src/verbs.rs:17-24 | Two registrations in a row make neighbours for which that condition fails. |
| `MrRuns.LastWriteWins` | crates/ub-core/src/verbs.rs:17-24 | In every run of register, deregister, reads and writes a device byte is the one put there by the last successful write that covers it. |
| `MrRuns.UnwrittenStays` | crates/ub-core/src/verbs.rs:17-24 | A byte no successful write covered keeps its initial value. |
| `MrRuns.ReadsReturnLastWrite` | crates/ub-core/src/verbs.rs:7-24 | In every such run, lookup, permission and bounds failures included, a successful read returns at each position what the last successful write to that address put there. |
| `MrRuns.ReadsReturnInitial` | crates/ub-core/src/verbs.rs:7-14 | And the initial byte where no write has succeeded. |
| `MrRuns.WriteSyncIsStep` | crates/ub-core/src/verbs.rs:17-24 | The write of the objects is the write of these runs, on the device it hits. |
| `MrVerbs.MrTableObject.RegisterMr` | crates/ub-core/src/mr.rs:155-215 | The table object's register; the disjointness invariant is kept whichever device object is given. |
| `MrVerbs.MrTableObject.AllocOffset` | crates/ub-core/src/mr.rs:111-115 | Bumps the device's cursor past the aligned block and returns its start. |
| `MrVerbs.MrTableObject.DropMr` | crates/ub-core/src/mr.rs:220-252 | Removes the entry; the invariant is kept. |
| `MrVerbs.MrTableObject.LookupByAddr` | crates/ub-core/src/mr.rs:311-327 | The search loop returns the region and offset determined by the address, in whatever order the entries come. |
| `MrVerbs.MrTableObject.ReadSync` | crates/ub-core/src/verbs.rs:7-14 | A read is a read of the device's flat bytes at the address's offset, with its three failures. |
| `MrVerbs.MrTableObject.WriteSync` | crates/ub-core/src/verbs.rs:17-24 | A write is a store into the device's flat bytes at the address's offset, with its three failures; no other device changes. |
| `MrVerbs.Device.ReadInto` | crates/ub-core/src/device/memory.rs:59-65 | Bounds check, then the buffer holds the device's bytes. |
| `MrVerbs.Device.WriteFrom` | crates/ub-core/src/device/memory.rs:67-73 | Bounds check, then the device's bytes are the old ones with the buffer stored. |

## Left out

- RTT smoothing, AIMD and the congestion window: f64 arithmetic that `send` does not consult.
- Session creation, peer restart and epochs of sessions: one session is fixed, frames carry no epoch.
- Error responses of the verb handler: they reuse the request verb, so only success responses are modelled.
- u64 and u32 overflow of sequence numbers, offsets and handles: a step that would overflow is not taken.
- A verb handler call is one step in the verb handler model: inbound frames are handled one at a time.
- Handlers address aligned 8-byte words in VerbHandler, and a write covers one word; byte-level access is modelled in MrTable, MrVerbs and MrRuns.
- ResponderObject.Responder.HandleVerbFrame: handles the request verbs; Send goes to a Jetty queue and the response verbs to waiting callers, neither of which touches memory or records.
- ResponderObject.Responder.RunRequest: lookup, permission, alignment and length failures are one test of the word's address; EndToEnd leaves that test to a fixed resolver.
- ManagerObject.TransportManager.HandleDataFrame: one session exists; the branch that delivers unchecked when there is none is not modelled.
- Placement.PlacementsDisjoint: each place call is one step, which `SubAllocThreads.AllocationsLinearise` justifies for the allocation inside it.
- ResponderObject.Responder.HandleRead: reads one word where the code reads the requested number of bytes.
- Coherence.WriterExclusion: each manager call reads the clock once, where the code reads it again for the deadline and for each region of a sweep; checks and updates under separate locks are one step.
- CoherenceProtocol.HitsAreFresh: one region, readers that do not fail, and the environment rules written in `Apply`; sending INVALIDATE and serving FETCH is left to callers by the code.
- MrLifecycle.OneWinnerOneRevoke: one region; atomic operations are sequentially consistent steps.
- MrTable.RegionsDisjoint: deregistration removes the entry at once; its stages are in MrLifecycle.
- ControlCodec.MessageRoundTrip: strings are their UTF-8 bytes, payload structs are value lists laid out as in the source, and payloads of 4 GiB or more, whose length field would wrap, are excluded.
- Text form of addresses (`to_text`, `from_text`): formatting only.
- Device used-bytes tracking and f64 placement scores: the placer's choice of device is a parameter.
- The atomics of the devices as byte operations, the NPU device, Jetty queues, fragmentation, CREDIT frames (never sent).
- Heartbeats, member tables, HTTP handlers, the KV demo, UDP and TCP plumbing, metrics, configuration and the command line tool.
