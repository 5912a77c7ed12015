# Shared-memory rings, their lock, and the XML parser, verified

A Dafny 4.11 model of the parts of the Windows guest tools that carry protocols and text: three
shared-memory rings (`inc/vring.h`, `inc/ring.h`, `inc/v4v.h`), the multi-reader single-writer
spin lock of `inc/scsiboot.h`, and TinyXML (`tinyxml/`, built without the STL, byte mode, C
locale). `dafny verify dfyconfig.toml` checks everything.

## How it is laid out

| files | what they model |
|---|---|
| `Word32`, `Memory`, `EventIndex` | 32-bit unsigned indices as words beside the unbounded counts they stand for; masking by a power of two; writes and reads of a sequence; the notification test both ring protocols share |
| `Nc2Arith`, `Nc2Messages`, `Nc2Machine`, `Nc2Invariant`, `Nc2Proof`, `Nc2Results`, `Nc2Wakeups`, `Nc2Progress`, `Nc2Witness`, `Nc2RingPair` | the netchannel2 ring: its 16-bit space arithmetic, one direction as a two-party machine in which every shared read or write (the bytes of messages and of pad headers one at a time) is one step, what every step keeps, what holds of every run, who is woken, that what is sent can be delivered, when both sides are stuck, and the operations as methods on `nc2_ring_pair`, each tied to its steps of the machine |
| `XenSizing`, `XenMachine`, `XenInvariant`, `XenResults`, `XenProgress`, `XenAttach`, `XenRing` | the Xen request/response ring: power-of-two sizing, front and back as a machine over shared union slots, results over every run, also after one side has attached anew, and the macros as methods, each tied to its steps of the machine |
| `V4vSpec`, `V4vRing` | the v4v receive ring as a queue of packets laid out in bytes, and the copy routines over arrays |
| `MrswLock`, `MrswCalls` | the lock, for any number of threads, and what each call comes to |
| `XmlText`, `XmlChars`, `XmlCharRef`, `XmlTextProof`, `XmlHexRef`, `XmlWords` | characters, entities, reading and encoding text, what a character reference stands for, decode-undoes-encode, and condensing as words |
| `XmlParser`, `XmlReader`, `XmlConsumed`, `XmlParsed` | the parser as functions from the text that is left, its loops proved against them, what text it accepts, and what holds of every tree it produces |
| `XmlPrinter`, `XmlLines`, `XmlRoundTrip` | the printer class, its output line by line, and parse-undoes-print |
| `XmlAttributes`, `XmlAttributeSet`, `XmlDom`, `XmlLoad` | the sentinel ring of attributes, the linked child list, deep copies, and the parser building all of these, on the heap |
| `XmlStamp`, `XmlUtf8` | incremental row and column tracking, in bytes and in UTF-8 |
| `TinyStr` | the growing string buffer |

The ring machines interleave single accesses in any order, with sequential consistency: the
sources put a full barrier between every write and read whose order matters. Client code enters
as explicit steps. For netchannel2 it is the discipline of `inc/v2v.h:239-272`: write a message
after a granted space check, move the private index past it, flush when it likes. For the Xen
ring the front writes only into a ring that is not full, and the back end answers only what it
has taken. A word the peer owns reaches a method as a parameter, once per read. Parser functions
return what was read and where the parser then stands, a null pointer being the program's
failure return.

## What turned out false, and exactly when it holds

- The prose rule for events (`inc/vring.h:107-117`) and the code's test differ exactly when a move
  wraps and the event lies at or below the wrapped index; the code signals there
  (`EventIndex.ProseMissesWrappedEvents`). The model follows the code.
- The space check adds the pad in a 16-bit variable. It asks for what is needed at every position
  exactly for messages below 2^15 bytes (`Nc2Arith.NeedExactEverywhereIff`).
- An empty netchannel2 ring refuses a message exactly in a band of positions, so it always grants
  one exactly when the message is at most half the ring (`Nc2Arith.EmptyRingAlwaysGrantsIff`).
- Producer and consumer can be stuck together although the producer has flushed: when the consumer
  sleeps without finishing what it read (`Nc2Witness.BothStuckThoughFlushed`). A waiting producer
  that has flushed and a sleeping consumer are both stuck exactly when the consumer has read
  everything and finished nothing since the refusal (`Nc2Wakeups.BothStuckOnceFlushedIff`).
- The form of `RING_HAS_UNCONSUMED_REQUESTS` without statement expressions reads the shared index
  twice. A peer that changes the index between the reads makes the back end accept more requests
  than the ring has entries (`XenResults.TwoReadsOverrun`: reads of 0 and 100). Over any run the
  back end stays within its room exactly when in every check the first read reaches the room or
  the second does not pass it (`XenResults.BackWithinRoomIff`); so always, when both reads agree.
  A comment (`inc/ring.h:126-129`) speaks of RING_SIZE()-1 outstanding requests; the code's
  RING_FREE_REQUESTS lets all entries be used, and so does the model.
- Attaching loses the notification a sleeping peer waits for exactly when the side before stopped
  between its push and the read of the event index, and that push was to notify
  (`XenAttach.FrontAttachLosesIff`, `XenAttach.BackAttachLosesIff`; `XenAttach.FrontAttachLoses` is
  such a run). No later push makes up for it (`XenAttach.BackLostForGood`).
- The lock word tells readers from a writer exactly below 2^31 threads (`MrswLock.ExclusiveIff`).
  The assertion in `release_mrsw_write` compares a sign-extended LONG with an unsigned constant, so
  it holds in every run exactly where pointers have 32 bits (`MrswLock.AssertionsHoldIff`).
- Character references follow section 4.1 of XML 1.0 only in part. One of that form yields its own
  character exactly below 256; higher codes lose their high bits (`XmlCharRef.CharRefYields`).
  Others are accepted exactly if nothing but digits follows the last `x` or `#` and there are
  none, or something comes before it (`XmlCharRef.AcceptedOutsideTheGrammarIff`): `&#;` and `&#x;`
  are a NUL character (`XmlCharRef.NoDigitsGiveNul`), and what comes before the last marker is
  ignored (`XmlCharRef.IgnoredBeforeMarker`).
- An attribute value survives printing and parsing exactly when `&#x` is nowhere in it
  (`XmlHexRef.ValueSurvivesIff`); plain text comes back unchanged exactly when it is also
  space-normal (`XmlHexRef.TextSurvivesIff`).
- `First`/`Next` run through all attributes exactly when none but the first has both an empty name
  and an empty value (`XmlAttributes.AllReachedIff`), so in every parsed element. The assertion in `Add` looks for the new
  attribute's name while it is still empty, so `FindOrCreate` trips it exactly when the name is new
  and the set already has an empty-named attribute (`XmlAttributeSet.AttributeSet.FindOrCreate`).
- A clone equals the original exactly when no string in it holds a NUL (the fields of declarations
  apart, which are copied whole) and every element's attribute
  names are distinct and all reached (`XmlAttributes.ClonedIff`).
- In UTF-8 mode `Stamp` never moves past a 0xEF with fewer than two bytes after it. It returns from
  every position exactly when neither of the last two bytes is a 0xEF before `now`
  (`XmlStamp.ReturnsEverywhereIff`).
- v4v: the message length counts the header (`inc/v4v.h:330-351`), unlike the comment at 186; t bounds
  a position in the payload, not a count, once bytes are skipped (the comment at 425-428 speaks of a count).
  The signed difference of the pointers is the distance exactly for rings of at most 2^31 bytes
  (`V4vSpec.BytesToReadExactIff`).

## Model

| member | source | states |
|---|---|---|
| `EventIndex.CrossesIffMovedOver` | inc/vring.h:292-297 | a side signals exactly when the event index is one of the indices it moved over, across 32-bit wrap |
| `EventIndex.NextIndexIsCaught` | inc/ring.h:245-250 | an event one past the index last seen catches every move away from it and nothing else |
| `EventIndex.ProseMissesWrappedEvents` | inc/vring.h:107-117 | where the documented rule and the test differ |
| `Nc2Arith.WouldWrapIff` | inc/vring.h:230-236 | the masked comparison says exactly that the message reaches the ring's end |
| `Nc2Arith.PadAtMostMessage` | inc/vring.h:238-253 | when a wrap is predicted the pad is the distance to the end, and never longer than the message |
| `Nc2Arith.NeedExactIff` | inc/vring.h:355-364 | the 16-bit sum is the true need exactly when the need fits 16 bits |
| `Nc2Arith.NeedExactEverywhereIff` | inc/vring.h:355-364 | exact at every position exactly for messages below 2^15 bytes |
| `Nc2Arith.NeedIsTrueNeedCut` | inc/vring.h:355-364 | for every 16-bit length, what is asked for is the true need modulo 2^16 |
| `Nc2Arith.EmptyRingGrantsIff` | inc/vring.h:366-377 | with every byte released the check succeeds exactly when the need, cut to 16 bits, is within the ring; below 2^15 bytes exactly outside a band of positions |
| `Nc2Arith.EmptyRingAlwaysGrantsIff` | inc/vring.h:355-377 | an empty ring has room for a message and its pad and grants them at every position, or at every aligned one, exactly when the message is at most half the ring |
| `Nc2Messages.DecodeEncode` | inc/vring.h:175-186 | header fields and body come back from the bytes, and the size is known from the first four |
| `Nc2Messages.MessageInStream` | inc/vring.h:91-97 | each sent message occupies exactly its stretch of the byte stream |
| `Nc2Results.StepKeeps` | inc/vring.h:188-415 | every step of either party, at every shared access, keeps the invariant |
| `Nc2Results.RunKeeps` | inc/vring.h:188-415 | so does every interleaving |
| `Nc2Results.SendsAreLogged` | inc/v2v.h:239-272 | the log of sent messages, pads removed, is what the run sent |
| `Nc2Results.DeliveredIsPrefixOfSent` | inc/vring.h:188-326 | over every run the messages read are a prefix of those sent: each once, whole, in order, no pad |
| `Nc2Results.CaughtUpMeansAllDelivered` | inc/vring.h:300-326 | when the indices meet, everything sent has been delivered |
| `Nc2Results.UnreleasedBytesUntouched` | inc/vring.h:300-326 | no step changes a byte sent and not yet released |
| `Nc2Results.CacheIsUnderEstimate` | inc/vring.h:162-166 | the cached count never exceeds the free space computed from the shared index |
| `Nc2Results.GrantCoversPadAndMessage` | inc/vring.h:355-377 | a granted check covers pad and message, no counter underflows, and the message then lies inside the ring |
| `Nc2Results.EveryMessageIsContained` | inc/vring.h:196-209 | the consumer's containment test accepts every message it starts on |
| `Nc2Results.RetriesAreBounded` | inc/vring.h:365-395 | the check's loop goes round at most once per unreleased published message |
| `Nc2Results.CheckTerminates` | inc/vring.h:355-415 | the same bound from the start of a check, in words of the shared indices |
| `Nc2Wakeups.SleepingConsumerIsWoken` | inc/vring.h:275-348 | after a final check of 0 a notification has been sent, or the flush under way will send one, exactly when the published index has moved |
| `Nc2Wakeups.NextFlushNotifies` | inc/vring.h:275-298 | while it has not moved, the next flush returns 1 exactly when it moves it |
| `Nc2Wakeups.FinalCheckZero` | inc/vring.h:334-348 | a final check returning 0 puts the consumer there: asleep with an unmoved index |
| `Nc2Wakeups.WaitingProducerIsWoken` | inc/vring.h:307-326 | after a space check of 0 a notification has been sent, or the finish under way will send one, exactly when the consumer index has moved |
| `Nc2Wakeups.NextFinishNotifies` | inc/vring.h:307-326 | while it has not moved, the next finish returns 1 exactly when it moves it |
| `Nc2Wakeups.RefusalMeansUnreleased` | inc/vring.h:378-414 | a check about to return 0 leaves the producer waiting at an unmoved index; with a message of at most half the ring it then has unreleased bytes out |
| `Nc2Wakeups.WaitingMeansUnreleased` | inc/vring.h:378-414 | so it has as long as it waits and the index stays |
| `Nc2Wakeups.BothStuckIff` | inc/vring.h:269-326 | a waiting producer and a sleeping consumer are both stuck exactly when the consumer has read all that is published and its index has not moved since the refusal |
| `Nc2Wakeups.BothStuckOnceFlushedIff` | inc/vring.h:269-326 | once the producer has flushed: exactly when everything is read and nothing finished since the refusal, and then something read is unfinished |
| `Nc2Progress.ConsumerCatchesUp` | inc/vring.h:188-216 | an idle consumer, by itself, can read everything published: it then stands at the shared index and has been given all but the padding |
| `Nc2Progress.ProducerSends` | inc/vring.h:218-298 | an idle producer with space for a message and its pad, by itself, can send and publish exactly that message |
| `Nc2Progress.MessageArrives` | inc/vring.h:188-415 | from every state with both sides idle, some run delivers all sent so far and then any message of at most half the ring |
| `Nc2Progress.RefusedIff` | inc/vring.h:354-415 | a space check by a producer alone: granted from the cache, granted, or refused with the event word set, and exactly when each |
| `Nc2Progress.SleepsIff` | inc/vring.h:334-348 | a final check by a consumer alone: back at once with more published, else asleep with the event word set |
| `Nc2Witness.BothStuckThoughFlushed` | inc/vring.h:300-348 | a run in which both are stuck and everything is flushed |
| `Nc2RingPair.RingPair.SendPad` | inc/vring.h:218-228 | writes the pad's header at the slot and moves index and cache by its size |
| `Nc2RingPair.RingPair.AvoidRingWrap` | inc/vring.h:246-253 | pads exactly when the message would reach the end, exactly up to the end, for every 16-bit length; is AvoidWrap and the byte-wise steps of the pad |
| `Nc2RingPair.RingPair.FlushRing` | inc/vring.h:275-298 | publishes the private index; signals exactly when it crosses the event; is FlushPublish and FlushReadEvent, with anything the consumer may do between them |
| `Nc2RingPair.RingPair.FinishMessages` | inc/vring.h:307-326 | the same for the consumer index, with FinishPublish and FinishReadEvent |
| `Nc2RingPair.RingPair.FinalCheckForMessages` | inc/vring.h:334-348 | 0 exactly when both reads saw nothing new; the event is then one past the index; is the three steps of the final check, and 0 puts the consumer to sleep |
| `Nc2RingPair.RingPair.CanSendPayloadBytes` | inc/vring.h:354-415 | for any values the peer's index may read as: which of its three outcomes the check has, what it leaves in cache and event word, and that it returns at the first round that finds space or an index at rest; is the machine's steps, round by round |
| `Nc2RingPair.WellBehavedPeerSettles` | inc/vring.h:365-395 | a peer that only advances its index, never past what is published, makes some round return, within one per unreleased byte and one more |
| `XenSizing.RD32Rounds` | inc/ring.h:32-37 | __RD32(x) is the power of two with RD <= x < 2 RD, for every 32-bit x > 0 |
| `XenSizing.RingSizeFits` | inc/ring.h:39-46 | the entries are a power of two, fit the area, and twice as many would not |
| `XenInvariant.SlotsInWindowDiffer` | inc/ring.h:202-207 | entries of one window have different slots, across 2^32 |
| `XenInvariant.GuardIsUntaken` | inc/ring.h:193-199 | on counts the guard is the requests not yet taken, whatever its first read saw |
| `XenResults.StepKeeps` | inc/ring.h:132-287 | every step of front and back keeps the invariant |
| `XenResults.IndexChain` | inc/ring.h:96-110 | the distances between the six indices and the free entries add up to nr_ents: the order of the indices, in words |
| `XenResults.SlotClassesSum` | inc/ring.h:172-184 | free, requested, in-process and answered slots add up to nr_ents |
| `XenResults.UnreadSlotsUntouched` | inc/ring.h:82-94 | no step changes a slot whose request or response is still to be read |
| `XenResults.InProcessSlotsUntouched` | inc/ring.h:82-94 | nor one whose request is in process, but for the back's own draft of the next response |
| `XenResults.BothDirectionsAreFifo` | inc/ring.h:202-221 | over every run requests and responses arrive once each, in order, as last written |
| `XenResults.GuardIsDifference` | inc/ring.h:186-200 | for a well-behaved front the guard is req_prod - req_cons |
| `XenResults.BackWithinRoomIff` | inc/ring.h:193-199 | over any run of checks, takes and answers, with any two read values per check, the back stays within its room throughout exactly when each check has a first read that reaches the room or a second that does not pass it |
| `XenResults.TwoReadsOverrun` | inc/ring.h:193-199 | reads of 0 and 100 on a ring of 8 let it take 9 requests without an answer |
| `XenResults.BackNeverOverruns` | inc/ring.h:186-191 | with one read, or two that agree, it never holds more unanswered requests than entries, whatever req_prod is |
| `XenResults.OverflowMeansNoneUntaken` | inc/ring.h:209-211 | the loop test holds exactly when every entry is in process, and then nothing is left to take |
| `XenResults.SleepingBackIsWoken` | inc/ring.h:253-279 | after a final check without requests a notification has been sent, or the push under way will send one, exactly when the index has moved |
| `XenResults.SleepingFrontIsWoken` | inc/ring.h:263-287 | the same for responses |
| `XenResults.NextPushNotifies` | inc/ring.h:132-137 | after a final check without work, and while the index has not moved, the next push notifies exactly when it moves it, in both directions |
| `XenResults.NoWorkMeansUnmoved` | inc/ring.h:273-287 | a second guard of 0 means the index has not moved |
| `XenProgress.FrontCatchesUp` | inc/ring.h:183-184 | an idle front that looks can take exactly as many responses as the macro counts, all those pushed, in order, and no more |
| `XenProgress.BackCatchesUp` | inc/ring.h:193-199 | the same for an idle back and requests, through the two reads of its guard |
| `XenProgress.RequestArrives` | inc/ring.h:202-261 | from any state with a free entry and both sides idle, writing a request, pushing and looking makes the back accept all requests written and then this one |
| `XenProgress.ResponseArrives` | inc/ring.h:205-271 | the same for a response to an unanswered request |
| `XenProgress.FrontSleepsIff` | inc/ring.h:281-287 | a final check by a front alone ends asleep, with the event word set, exactly when there is nothing to take |
| `XenProgress.BackSleepsIff` | inc/ring.h:273-279 | the same for the back |
| `XenAttach.AttachKeepsRing` | inc/ring.h:153-166 | attaching to existing indices keeps index order and unread slots |
| `XenAttach.RunKeepsAttached` | inc/ring.h:153-166 | so does every run from there |
| `XenAttach.FrontAttachedIsFifo` | inc/ring.h:153-159 | over every run after it, the new front gets in order the responses pushed since, and the back every request published before or after |
| `XenAttach.BackAttachedIsFifo` | inc/ring.h:160-166 | the same for a new back |
| `XenAttach.FrontAttachLosesIff` | inc/ring.h:153-159 | when a sleeping back loses its notification by a new front, and that otherwise it has been notified or the next push that moves the index notifies |
| `XenAttach.BackAttachLosesIff` | inc/ring.h:160-166 | the same for a sleeping front and a new back |
| `XenAttach.BackLostForGood` | inc/ring.h:253-261 | once lost, no run in which the back does not look of its own accord notifies it |
| `XenAttach.FrontLostForGood` | inc/ring.h:263-271 | the same for the front |
| `XenAttach.FrontAttachLoses` | inc/ring.h:253-261 | a run of three steps on a new ring after which an attach loses it |
| `XenRing.SharedRing.constructor` | inc/ring.h:133-137 | indices 0, events 1, as many slots as fit: the initial state of the machine |
| `XenRing.FrontRing.Init` | inc/ring.h:139-144 | the front of an initial state; all entries are free |
| `XenRing.FrontRing.Attach` | inc/ring.h:154-159 | attached to the page of any machine state, the front stands as in the state of which AttachKeepsRing speaks |
| `XenRing.FrontRing.EntryOf` | inc/ring.h:203-207 | the masked index is in the page, and is the slot of the count the index stands for |
| `XenRing.FrontRing.PushRequestsAndCheckNotify` | inc/ring.h:253-261 | is the machine steps PushRequests and ReadReqEvent, with anything the back may do between them; notifies exactly when that marks the back notified |
| `XenRing.FrontRing.FinalCheckForResponses` | inc/ring.h:281-287 | is FinalRspRead and, without work, WriteRspEvent and FinalRspRecheck, with anything the back may do between them; 0 puts the front to sleep |
| `XenRing.BackRing.Init` | inc/ring.h:146-151 | the back of an initial state, with room for all |
| `XenRing.BackRing.Attach` | inc/ring.h:161-166 | as for the front |
| `XenRing.BackRing.PushResponsesAndCheckNotify` | inc/ring.h:263-271 | as for requests: PushResponses and ReadRspEvent |
| `XenRing.BackRing.HasUnconsumedRequests` | inc/ring.h:193-199 | its two reads are the machine steps that say how many requests the back may take; among kept states, those published by the second read |
| `XenRing.BackRing.AskForRequests` | inc/ring.h:273-277 | the first guard and the event word as machine steps |
| `XenRing.BackRing.RecheckForRequests` | inc/ring.h:278-279 | the second guard; 0 puts the back to sleep |
| `XenRing.BackRing.FinalCheckForRequests` | inc/ring.h:273-279 | all five steps of the final check, with anything the front may do between them |
| `V4vSpec.BytesToReadIsDistance` | inc/v4v.h:295-303 | the signed difference is the distance round the ring |
| `V4vSpec.BytesToReadExactIff` | inc/v4v.h:295-303 | for all pointers exactly when the ring is at most 2^31 bytes |
| `V4vSpec.RepresentsAppend` | inc/v4v.h:184-187 | a frame after the unread bytes is a packet at the end of the queue |
| `V4vSpec.ChainReassemblesIff` | inc/v4v.h:425-432 | slices that start where the last stopped reassemble a payload exactly when they run from 0 to its end |
| `V4vRing.Ring.Send` | inc/v4v.h:229-239 | a packet is appended to the queue exactly when it leaves the ring short of full |
| `V4vRing.Ring.RingBytesToRead` | inc/v4v.h:295-303 | the number of unread bytes |
| `V4vRing.Ring.NextMessage` | inc/v4v.h:318-353 | -1 exactly while header or message is incomplete; else length, source, protocol, and where the payload starts |
| `V4vRing.Ring.CopyPayload` | inc/v4v.h:355-391 | the first min(t, L) payload bytes, read circularly, and the start of the next frame |
| `V4vRing.Ring.CopyOut` | inc/v4v.h:311-397 | result, buffer, read pointer and unread bytes after v4v_copy_out, with and without consuming |
| `V4vRing.Ring.MemcpySkip` | inc/v4v.h:399-423 | copies all but what is left to skip, and returns what then is |
| `V4vRing.Ring.CopyPayloadSkip` | inc/v4v.h:473-511 | payload bytes [skip, min(t, L)) to the buffer's start wherever the ring wraps |
| `V4vRing.Ring.CopyOutOffset` | inc/v4v.h:430-520 | as CopyOut, from skip on; at skip 0 the two contracts are the same |
| `V4vRing.HeadOfQueue` | inc/v4v.h:318-351 | what is found is the head of the queue, whole, and nothing only when it is empty |
| `V4vRing.Dequeue` | inc/v4v.h:386-393 | moving past a message leaves the rest of the queue |
| `V4vRing.Receive` | inc/v4v.h:305-397 | receiving is taking the head of a queue of packets |
| `V4vRing.ReadInPieces` | inc/v4v.h:425-520 | calls of the offset copy without consuming, each from where the last stopped, give the payload exactly when they run from 0 to its end, and leave the ring as it was |
| `MrswLock.StepKeeps` | inc/scsiboot.h:278-351 | every step of any thread keeps the lock's invariant |
| `MrswLock.MutualExclusion` | inc/scsiboot.h:271-276 | below 2^31 threads: no writer beside another holder, and the word says who holds it |
| `MrswLock.ExclusiveIff` | inc/scsiboot.h:271-292 | the word tells readers and writer apart in every run exactly below 2^31 threads |
| `MrswLock.AssertionsHoldIff` | inc/scsiboot.h:294-332 | the release assertions hold in every run exactly for 32-bit pointers |
| `MrswLock.WriterReleaseHalts` | inc/scsiboot.h:143-163 | with 64-bit pointers one acquire and release for writing fails the assertion |
| `MrswLock.LevelRestored` | inc/scsiboot.h:278-351 | a thread out of the lock runs at its own interrupt level again, a holder at the highest |
| `MrswCalls.TryAloneIff` | inc/scsiboot.h:334-351 | a try by a thread alone takes the lock, with one reader more, exactly when no thread holds it for writing; else nothing has changed and the thread is at its own level |
| `MrswCalls.TryFailsIff` | inc/scsiboot.h:341-345 | under any interleaving, a try gives up exactly by a look at the word while a thread holds the lock for writing |
| `MrswCalls.ReadAloneIff` | inc/scsiboot.h:278-292 | an acquisition for reading alone succeeds exactly when no thread holds it for writing, and else spins for ever |
| `MrswCalls.WriteAloneIff` | inc/scsiboot.h:303-319 | one for writing, exactly when no thread holds it |
| `MrswCalls.GrantedIff` | inc/scsiboot.h:289-318 | under any interleaving, at which steps a thread comes to hold the lock, and that no writer, or nobody, held it then |
| `MrswCalls.FailedExchangeLooksAgain` | inc/scsiboot.h:283-350 | a failed compare-exchange changes nothing and leads back to the look at the word |
| `MrswCalls.HaltsIff` | inc/scsiboot.h:294-332 | in any state, exactly which steps fail an assertion |
| `MrswCalls.ReaderReleases` | inc/scsiboot.h:294-301 | a release by a reader alone: one reader less, its own level |
| `MrswCalls.WriterReleases` | inc/scsiboot.h:321-332 | a release by a writer alone frees the lock, and halts exactly with 64-bit pointers |
| `XmlReader.SkipBlanks` | tinyxml/tinyxmlparser.cpp:314-361 | stops at the first character that is not white space |
| `XmlChars.ClassesAre` | tinyxml/tinyxmlparser.cpp:124-170 | white space, name starts and name characters, by enumeration |
| `XmlChars.ToLowerIs` | tinyxml/tinyxml.h:382-393 | capital letters become small, nothing else changes |
| `XmlChars.CutAtNul` | tinyxml/tinyxml.cpp:161-166 | a string handed over as a C string is what stands before its first NUL |
| `XmlReader.TakeName` | tinyxml/tinyxmlparser.cpp:401-434 | the longest name, or null where none starts |
| `XmlChars.LongestName` | tinyxml/tinyxmlparser.cpp:401-434 | the name is all name characters and cannot be longer |
| `XmlReader.TakeEntity` | tinyxml/tinyxmlparser.cpp:438-531 | character references are the numbers their digits stand for, cut to eight bits, however the code reads them backwards modulo 2^32; else the five entities, or the ampersand skipped |
| `XmlCharRef.HexBackIs` | tinyxml/tinyxmlparser.cpp:450-481 | the backward scan gives the value of the numeral after the last `x`, modulo 2^32, exactly if that is all digits; a digit is worth its place in "0123456789abcdef", small or capital |
| `XmlCharRef.DecBackIs` | tinyxml/tinyxmlparser.cpp:482-506 | the same for decimal digits after the last `#` |
| `XmlCharRef.ReferenceIs` | tinyxml/tinyxmlparser.cpp:446-518 | what any text between `&#` and a semicolon yields, and that reading goes on behind it |
| `XmlCharRef.UnendedReference` | tinyxml/tinyxmlparser.cpp:459-463 | without a semicolon it is an error |
| `XmlCharRef.CharRefYields` | tinyxml/tinyxmlparser.cpp:446-518 | every CharRef of section 4.1 of XML 1.0 yields a character, and its own exactly below 256 |
| `XmlCharRef.CodeReferenced` | tinyxml/tinyxmlparser.cpp:450-481 | for every code below 256, its two hexadecimal digits in either case refer to its character |
| `XmlCharRef.PredefinedEntity` | tinyxml/tinyxmlparser.cpp:42-49 | each of the five entities of section 4.6 yields its character |
| `XmlCharRef.AcceptedOutsideTheGrammarIff` | tinyxml/tinyxmlparser.cpp:446-518 | which other references the code accepts |
| `XmlCharRef.NoDigitsGiveNul` | tinyxml/tinyxmlparser.cpp:482-518 | `&#;` and `&#x;` are a NUL character |
| `XmlCharRef.IgnoredBeforeMarker` | tinyxml/tinyxmlparser.cpp:464-506 | what comes before the last marker makes no difference |
| `XmlCharRef.YieldsIff` | tinyxml/tinyxmlparser.cpp:438-531 | an ampersand yields a character exactly at one of the five entities or such a reference |
| `XmlReader.TakeChar` | tinyxml/tinyxml.h:327-361 | one character, entities resolved |
| `XmlReader.TakeKept` | tinyxml/tinyxmlparser.cpp:583-598 | text up to the end tag, white space kept |
| `XmlReader.TakeCondensed` | tinyxml/tinyxmlparser.cpp:599-631 | text with white space condensed |
| `XmlReader.TakeText` | tinyxml/tinyxmlparser.cpp:574-637 | ReadText in both modes, past its end tag |
| `XmlReader.TakeAttribute` | tinyxml/tinyxmlparser.cpp:1392-1463 | name and value, quoted or bare, and where parsing goes on |
| `XmlReader.TakeDeclaration` | tinyxml/tinyxmlparser.cpp:1572-1628 | the three fields of a declaration |
| `XmlReader.TakeNode` | tinyxml/tinyxmlparser.cpp:818-900 | which node starts here, and that node |
| `XmlReader.TakeElement` | tinyxml/tinyxmlparser.cpp:1043-1176 | start tag, attributes, double attributes refused, content, end tag |
| `XmlConsumed.EndTagIff` | tinyxml/tinyxmlparser.cpp:1122-1138 | the parser gets past an end tag exactly where `</`, the very name, white space and `>` stand |
| `XmlConsumed.OpenElementIff` | tinyxml/tinyxmlparser.cpp:1103-1138 | an element opened by `>` is accepted exactly if its content is followed by its own end tag |
| `XmlConsumed.ElementTaken` | tinyxml/tinyxmlparser.cpp:1043-1176 | for any text, an element accepted ends in `/>`, without content, or in its own end tag, and parsing goes on behind it |
| `XmlConsumed.NodeTaken` | tinyxml/tinyxmlparser.cpp:818-900 | the parser only moves on within its text |
| `XmlConsumed.AttributeShape` | tinyxml/tinyxmlparser.cpp:1392-1463 | an attribute accepted is, in the text, a name, `=` and a quoted or bare value, white space before each |
| `XmlReader.TakeValue` | tinyxml/tinyxmlparser.cpp:1179-1247 | the children up to an end tag, blank text dropped |
| `XmlReader.EncodeString` | tinyxml/tinyxml.cpp:52-133 | appends the encoding, hexadecimal references passed through |
| `XmlTextProof.GetCharOfEncoded` | tinyxml/tinyxmlparser.cpp:438-531 | decoding one encoded character gives it back |
| `XmlTextProof.EncodedAs` | tinyxml/tinyxml.cpp:52-133 | which characters are encoded, and as what |
| `XmlChars.EncodedIsSafe` | tinyxml/tinyxml.cpp:52-133 | encoded text holds none of `<`, `>`, either quote or a control character |
| `XmlTextProof.KeepUndoesEncode` | tinyxml/tinyxmlparser.cpp:574-598 | decoding undoes encoding, for every string without a hexadecimal reference |
| `XmlTextProof.CondensedTextIsNormalized` | tinyxml/tinyxmlparser.cpp:599-637 | in condensing mode it gives the string with spaces collapsed and ends stripped |
| `XmlTextProof.NormalizeFixesIff` | tinyxml/tinyxmlparser.cpp:599-631 | unchanged exactly for space-normal strings; the result always is one |
| `XmlWords.RawTextIsItsWords` | tinyxml/tinyxmlparser.cpp:599-637 | text without references is read as its words, one space between two, whatever white space is in it |
| `XmlHexRef.AfterReference` | tinyxml/tinyxmlparser.cpp:438-500 | where the parser stands after a reference that came from the value itself |
| `XmlHexRef.DecodedIsShorter` | tinyxml/tinyxml.cpp:64-84 | a decoded value is never longer, and shorter if it held a reference |
| `XmlHexRef.ValueSurvivesIff` | tinyxml/tinyxml.cpp:52-133 | a value survives encoding and decoding exactly when it holds no `&#x` |
| `XmlHexRef.CondensedIsShorter` | tinyxml/tinyxmlparser.cpp:599-631 | condensed text is never longer than its original and a pending space, and shorter if it held a reference |
| `XmlHexRef.TextSurvivesIff` | tinyxml/tinyxmlparser.cpp:574-637 | text in content survives exactly when it holds no `&#x` and is space-normal |
| `XmlPrinter.TiXmlPrinter.PrintAttribute` | tinyxml/tinyxml.cpp:1210-1234 | name, value, and the quote that suits the value |
| `XmlPrinter.TiXmlPrinter.PrintAttributes` | tinyxml/tinyxml.cpp:1766-1778 | the attributes that First and Next reach, each after a space |
| `XmlPrinter.TiXmlPrinter.VisitEnter` | tinyxml/tinyxml.cpp:1766-1800 | the start tag; one level deeper; the flag for a lone text child |
| `XmlPrinter.TiXmlPrinter.VisitExit` | tinyxml/tinyxml.cpp:1803-1826 | the end tag; one level up; the flag off |
| `XmlPrinter.TiXmlPrinter.VisitText` | tinyxml/tinyxml.cpp:1829-1854 | CDATA, simple and indented text |
| `XmlPrinter.TiXmlPrinter.VisitComment` | tinyxml/tinyxml.cpp:1866-1874 | a comment on its own line |
| `XmlPrinter.TiXmlPrinter.VisitDeclaration` | tinyxml/tinyxml.cpp:1857-1863 | a declaration on its own line |
| `XmlPrinter.TiXmlPrinter.DoIndent` | tinyxml/tinyxml.h:1785-1788 | as many indents as the depth |
| `XmlPrinter.TiXmlPrinter.Accept` | tinyxml/tinyxml.cpp:875-886 | visiting a node appends its printed form, and depth and flag end as they began |
| `XmlLines.PrintIsLines` | tinyxml/tinyxml.cpp:1766-1874 | the printed form is the lines of the tree, one level of indentation per level of depth, and the layout decides nothing else |
| `XmlRoundTrip.NodesParse` | tinyxml/tinyxmlparser.cpp:1179-1247 | printed children, in any white layout, parse back in order up to the end tag |
| `XmlRoundTrip.DeclarationReads` | tinyxml/tinyxmlparser.cpp:1572-1628 | a printed declaration parses back |
| `XmlRoundTrip.UnknownReads` | tinyxml/tinyxmlparser.cpp:1275-1305 | so does an unknown tag |
| `XmlRoundTrip.UnendedNodes` | tinyxml/tinyxmlparser.cpp:1275-1380 | what comments, CDATA sections and unknown tags without their end come to |
| `XmlRoundTrip.BareAttributeReads` | tinyxml/tinyxmlparser.cpp:1437-1461 | an attribute value without quotes reads as it stands |
| `XmlRoundTrip.TextDroppedIff` | tinyxml/tinyxmlparser.cpp:1199-1223 | a text is dropped exactly if all of it is white space, encoded or not |
| `XmlRoundTrip.ParseUndoesPrint` | tinyxml/tinyxml.cpp:1766-1874 | an element in normal form, printed at any depth and in any white layout, parses back and leaves what follows |
| `XmlRoundTrip.BothModesRoundTrip` | tinyxml/tinyxml.h:1740-1773 | in stream and in indented mode |
| `XmlRoundTrip.PrintAndParse` | tinyxml/tinyxmlparser.cpp:1043-1247 | the printer's loops and then the parser's loops give the tree back |
| `XmlRoundTrip.CoreIsNulFree` | tinyxml/tinyxml.cpp:1766-1874 | what is printed for a normal tree is a C string |
| `XmlAttributes.AllReachedIff` | tinyxml/tinyxml.cpp:1170-1177 | First and Next reach every attribute exactly when no later one is empty in name and value |
| `XmlAttributes.ReachedIs` | tinyxml/tinyxml.cpp:1170-1177 | what First and Next reach: all up to such an attribute |
| `XmlAttributes.SetKeepsNames` | tinyxml/tinyxml.cpp:780-786 | setting keeps names distinct and non-empty |
| `XmlAttributes.SetIsFound` | tinyxml/tinyxml.cpp:780-786 | what was set is what is then found first under that name |
| `XmlAttributes.RemoveKeepsNames` | tinyxml/tinyxml.cpp:437-450 | so does removing |
| `XmlParsed.ParsedAttributesProper` | tinyxml/tinyxmlparser.cpp:1083-1175 | so does parsing, from any text |
| `XmlParsed.ParsedNodeProper` | tinyxml/tinyxmlparser.cpp:818-900 | so at every element of a parsed node First and Next reach all its attributes, which have distinct non-empty names |
| `XmlParsed.ReadNodesProper` | tinyxml/tinyxmlparser.cpp:1179-1247 | the same for the nodes of any content |
| `XmlAttributes.CopiedAttrsIff` | tinyxml/tinyxml.cpp:858-866 | copied attributes equal the originals, in order, exactly for distinct, reached, NUL-free ones |
| `XmlAttributes.ClonedIff` | tinyxml/tinyxml.cpp:889-897 | a clone equals the original exactly for trees of such nodes |
| `XmlAttributeSet.Attribute.Next` | tinyxml/tinyxml.cpp:1170-1177 | null before anything without name and value, else the next in the ring |
| `XmlAttributeSet.AttributeSet.Add` | tinyxml/tinyxml.cpp:1514-1527 | appends to the ring; reports what the assertion tests |
| `XmlAttributeSet.AttributeSet.Remove` | tinyxml/tinyxml.cpp:1529-1545 | takes one member out, or reports that it was not linked |
| `XmlAttributeSet.AttributeSet.Find` | tinyxml/tinyxml.cpp:1572-1580 | the first member of that name |
| `XmlAttributeSet.AttributeSet.FindOrCreate` | tinyxml/tinyxml.cpp:1583-1592 | that member or a new one at the end, and when the assertion in Add holds |
| `XmlAttributeSet.AttributeSet.SetAttribute` | tinyxml/tinyxml.cpp:780-786 | the first attribute of that name gets the value, or the pair is appended; every other pair and the order stay; a look-up then finds that value |
| `XmlAttributeSet.AttributeSet.RemoveAttribute` | tinyxml/tinyxml.cpp:437-450 | the first pair of that name is gone, the others stay in order |
| `XmlAttributeSet.AttributeSet.AddParsed` | tinyxml/tinyxmlparser.cpp:1158-1171 | a second attribute of one name is refused, others are appended |
| `XmlAttributeSet.AttributeSet.Listed` | tinyxml/tinyxml.cpp:810-815 | the First/Next loop lists the reached attributes in insertion order |
| `XmlAttributeSet.AttributeSet.CopyTo` | tinyxml/tinyxml.cpp:858-866 | the copying loop, source set untouched, new members fresh |
| `XmlDom.DomNode.LinkEndChild` | tinyxml/tinyxml.cpp:186-211 | appends a child and keeps both chains; refuses a document; linking a member again, which the assertion lets through, leaves links that are no list |
| `XmlDom.DomNode.InsertEndChild` | tinyxml/tinyxml.cpp:214-227 | appends a clone; the document stays described but for the receiver |
| `XmlDom.DomNode.InsertBeforeChild` | tinyxml/tinyxml.cpp:230-260 | inserts a clone just before a child, or refuses; likewise |
| `XmlDom.DomNode.InsertAfterChild` | tinyxml/tinyxml.cpp:263-293 | inserts a clone just after a child, or refuses; likewise |
| `XmlDom.DomNode.ReplaceChild` | tinyxml/tinyxml.cpp:296-332 | a clone takes a child's place, or refuses; likewise |
| `XmlDom.DomNode.RemoveChild` | tinyxml/tinyxml.cpp:335-359 | exactly that child leaves the list; likewise |
| `XmlDom.Append` | tinyxml/tinyxml.cpp:214-227 | appending a clone to a node at any depth of a described document gives a described document |
| `XmlDom.Unlink` | tinyxml/tinyxml.cpp:335-359 | so does removing a child |
| `XmlDom.AppendAndUnlink` | tinyxml/tinyxml.cpp:186-359 | the second undoes the first |
| `XmlDom.DomNode.FirstChildNamed` | tinyxml/tinyxml.cpp:361-370 | the first child of that value, from the front |
| `XmlDom.DomNode.LastChildNamed` | tinyxml/tinyxml.cpp:373-382 | the last child of that value, from the back |
| `XmlDom.DomNode.Clone` | tinyxml/tinyxml.cpp:889-897 | a well-linked tree of new objects only, standing for the cloned tree |
| `XmlDom.DomNode.CopyTo` | tinyxml/tinyxml.cpp:853-873 | attributes, then children, into a new element |
| `XmlLoad.LoadNode` | tinyxml/tinyxmlparser.cpp:818-900 | the node found and parsed is a well-linked new tree standing for what the parser functions say |
| `XmlLoad.LoadElement` | tinyxml/tinyxmlparser.cpp:1043-1176 | the same for an element, also when parsing fails half-way |
| `XmlLoad.LoadAttributes` | tinyxml/tinyxmlparser.cpp:1083-1175 | the attributes read are in the ring, in order, with distinct non-empty names, up to the end of the tag, a failure or a double name |
| `XmlLoad.LoadChildren` | tinyxml/tinyxmlparser.cpp:1179-1247 | the nodes read are the children linked, in order |
| `XmlLoad.PrintAndLoad` | tinyxml/tinyxmlparser.cpp:1043-1247 | a normal tree printed and loaded gives linked nodes that stand for it |
| `XmlStamp.ParsingData.Stamp` | tinyxml/tinyxmlparser.cpp:196-311 | row, column and stamp after a call; both assertions hold |
| `XmlStamp.IncrementalIsOneShot` | tinyxml/tinyxmlparser.cpp:206-210 | calls at non-decreasing positions equal one call at the last |
| `XmlStamp.ReturnsEverywhereIff` | tinyxml/tinyxmlparser.cpp:261-283 | when the loop returns from every position |
| `XmlStamp.RowAndColumn` | tinyxml/tinyxmlparser.cpp:206-311 | in byte mode, for every text: the row counts its lines (CR, LF and either pair end one) and the column is the width of the last, tab stops included |
| `XmlUtf8.Utf8RowAndColumn` | tinyxml/tinyxmlparser.cpp:206-311 | in UTF-8 mode, for every well-formed text: row and column count characters, not bytes |
| `XmlUtf8.LengthFromFirstByte` | tinyxml/tinyxmlparser.cpp:66-85 | the table of lengths agrees with RFC 3629 for every first byte |
| `XmlStamp.CDivTruncates` | tinyxml/tinyxmlparser.cpp:251-255 | division rounds toward zero |
| `TinyStr.AppendsAreLinear` | tinyxml/tinystr.cpp:68-78 | any appends from empty: capacity at most twice the length, all bytes moved at most the capacity, logarithmically many reallocations |
| `TinyStr.AppendStaysPaid` | tinyxml/tinystr.cpp:68-78 | one append keeps those bounds |
| `TinyStr.TiXmlString.Reserve` | tinyxml/tinystr.cpp:37-46 | text kept, capacity raised at the cost of one copy |
| `TinyStr.TiXmlString.Assign` | tinyxml/tinystr.cpp:49-65 | the text is the argument, also out of its own buffer; capacity at most 3 (length + 8) |
| `TinyStr.TiXmlString.Append` | tinyxml/tinystr.cpp:68-78 | text concatenated, terminated, within capacity, at the stated cost; the suffix may lie in the string's own buffer when it need not grow |
| `TinyStr.TiXmlString.Init` | tinyxml/tinystr.h:217-237 | a terminated representation, the shared null one for capacity 0 |
| `TinyStr.TiXmlString.Find` | tinyxml/tinystr.h:166-176 | the first occurrence before any NUL, or none |
| `TinyStr.Build` | tinyxml/tinystr.cpp:68-78 | a new string appended to piece by piece holds all of them, at a cost within those bounds |

## Left out

- Weak memory: steps are sequentially consistent. A barrier left out of the sources would not show.
- Peers that break the protocol, except for the back end's guard, proved for any shared index, and the netchannel2 space check, proved for any reads.
- netchannel2: `consumer_active`, `consumer_spinning` and `producer_active` hints, and the advisory `__nc2_flush_would_trigger_event`; message types other than pad against the rest.
- Xen ring: `RING_PUSH_REQUESTS` and `RING_PUSH_RESPONSES` without the notification test (the same publication, no promise of waking), and event values a client sets further ahead to batch work. A message is one value in its slot, written any number of times before it is committed, not separate bytes.
- `Nc2RingPair.RingPair.CanSendPayloadBytes`: only for reads of which some round returns; against a peer that moves its index between any two looks without ever giving space, the code does not return either.
- v4v: the sending side belongs to the hypervisor and is modelled from the message layout; notification, registration and table operations are not.
- `V4vRing.Ring.NextMessage`: length fields below 16 are left out. The hypervisor, which writes the ring, counts the header in; the code relies on that and subtracts 16 without a check.
- `V4vRing.Ring.CopyOut`: the same.
- `V4vRing.Ring.CopyOutOffset`: the same, and a null buffer with bytes to skip, which the code does not guard against.
- Lock: the value of HIGH_LEVEL comes from the kernel headers, which are not part of this model; fairness and progress of the spinning loops, recursive acquisition by one thread, and the plain `irqsafe_lock`, whose word takes only two values.
- TinyXML: UTF-8 text (except in row and column tracking), `condenseWhiteSpace` switched off, file loading and saving, `StreamIn`, number queries, handles, error codes and strings, user data and locations, the `Print(FILE*)` family.
- The document node and its own parse loop; `delete` of removed, replaced or rejected nodes.
- The printer visits trees as values; that linked nodes stand for such a tree is what `XmlDom` describes.
- `XmlDom.DomNode.Clone`: documents are not cloned, and user data and locations are not copied.
- `XmlRoundTrip.ParseUndoesPrint`: stated for a tree whose root is an element, not for a whole document with several top-level nodes.
- `TinyStr.TiXmlString.Append`: a suffix inside the string's own buffer when the string must grow: the code frees that buffer before it copies. Sizes are unbounded; overflow of `size_t` is not modelled. Comparison operators are left out.
- `XmlDom.DomNode.CopyTo`: into a node without children or attributes, as all its callers have it (it is not public): `Clone` and the copy constructor pass a new node, and the assignment operator clears its target first. The latter two are left out.
- `XmlStamp.ParsingData.Stamp`: row and column are unbounded integers.
