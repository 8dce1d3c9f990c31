# A verified model of the EMSD message transfer server

The server agent of EMSD (Efficient Mail Submission and Delivery, RFC 2524) accepts messages from
devices and delivers messages to them over a transport that carries single invocations, results and
errors. Longer messages travel in numbered segments. This project models its core, the files of
`src/emsd/mts.one`, and proves what they keep over all inputs and all runs:

- **Segments.** `Words`, `Reassembly` and `Cutting`: cutting a content, collecting its pieces in any
  order with two bit masks and 32 slots, and joining them again.
- **Deliveries.** `Fsm`, `Deliver` and `Outcome`: the state machine that hands over piece after piece,
  repeats on failure, and ends by completing, respooling or deleting the message; `Wire` is what the
  device at the other end makes of what was handed over.
- **Delivery queues.** `Queue` and `Store` are the meaning; `MsgStore` and `DeliveryQueue` are the code,
  linked lists and counters updated in place; `ToDevice` is the scheduler. `Adding` says which lists a
  message reaches, `Timing` when a message is handed out, and neither refers to the steps that do it.
- **Subscribers.** `NsapIndex` is the open-addressing index from device addresses to subscribers, and
  `Address` the texts of EMSD addresses.
- **Submissions.** `Performer` is the state machine of an operation a device invokes, `Router` all
  operations at once and where a segment goes, `Preprocess` what an invocation does to the whole server,
  `UserFree` what an operation frees at its end.
- **Headers.** `Header` is the walk through the header of a message to be delivered, `HeaderFields` reads
  back headers written field by field.

Each part has a meaning written on values and, where the code changes things step by step, a class or
an array method proved to do what the meaning says; the results over whole runs are lemmas about the
meaning. `dafny verify dfyconfig.toml` checks everything.

## How to read it

- The engine of the state machines takes the first row whose event matches and whose predicate holds
  (`src/multiocp/base.ocp/fsm_/portable/fsm.c:130-247`). It is modelled as a loop over the tables. A row
  for event 0 matches every event (`fsm.c:262-277`, `fsm.h:57`), and INVOKE.ind is event 0
  (`src/emsd/mts.one/mts.h:246-256`). Events raised by actions are queued by the engine, so they reach
  the model as later events.
- The transport may refuse an invocation or report anything at any time, except that RESULT.ind and
  ERROR.ind answer an invocation it took. Each run of a delivery, of an operation and of the server is
  a sequence of such events, with the answers of the rest of the system (parser, spool directory,
  timers) as arguments.
- Each operation on the queues takes the time as an argument. In a run the time is positive and does
  not go back. Success, respooling and deletion come while the message is still listed: a delivery is
  assumed to end before its message expires.
- C leaves `1 << 32` undefined. `ShiftRule` offers the two usual results, and every statement that
  depends on it says so.

## Where the code and its documentation disagree

The model follows the code.

- A resource error is documented as transient (`deliver.c:106-119`), but the error request never reaches
  the predicate (`mpreproc.c:416-486`): every ERROR.ind deletes the message (`ErrorIndication`).
- The retry times are documented as used one after the other (`mts.h:130-139`); the failure count they
  are indexed with is never incremented, so only the first is used (`RespoolUsesFirstRetryTime`).
- After a deletion the queue stays RQ_DELIVERING (`msgstore.c:387-398`), so its other messages are
  never handed out (`DeletionIsTheEnd`).
- A duplicate segment is not skipped: it sends the operation to the error state (`DuplicateEndsSubmission`).
- A message sent whole whose first hand-over the transport refuses is not marked complete
  (`deliver.c:621-653`), so its answer is followed by an empty piece (`RefusedWholeMessageExceeds`).
- A content of 44801 to 47899 octets needs too many pieces. The code reports a failure to itself and
  then repeats a pdu it never made; the model marks this state `Undefined` and claims nothing beyond it.
- Freeing an operation does not stop its segmentation timer; only the last missing segment stops one
  (`segment.c:212`). A timer that expires for an operation already freed frees it again. The model counts
  the calls and says exactly when there is a second (`FreedOnceExactly`, `FreedTwice`); what the second
  does to the memory is not modelled.
- The header walk goes on from a null pointer when it comes to a continuation line that ends the text
  without a newline (`WalkFailsExactly`); a header that ends in a newline has none (`TerminatedIsFinished`).

## Model

| member | source | states |
|---|---|---|
| Reassembly.ReassemblyIsComplete | src/emsd/mts.one/segment.c:28-225 | Whatever the order of the later pieces, all are accepted; the operation is complete after the last missing one and not before, and its content is then the pieces in order |
| Reassembly.ThirtyTwoSegments | src/emsd/mts.one/segment.c:46-93 | A message in 32 segments passes the check on the number of segments, and its later pieces are accepted exactly where the undefined `1 << 32` is zero |
| Reassembly.FirstAcceptedExactly | src/emsd/mts.one/segment.c:28-115 | A first segment is accepted if and only if it announces from 1 to 32 segments; with several it starts the assembly anew, and refused it leaves only its count behind |
| Reassembly.AcceptedExactly | src/emsd/mts.one/segment.c:130-145 | In the middle of a message a later segment is accepted if and only if it is announced and not there yet, whatever it carries; refused, it changes nothing |
| Reassembly.OtherKeepsSound | src/emsd/mts.one/segment.c:130-224 | Received numbers stay a subset of the expected ones, complete means they are equal, and until then nextSegmentNumber counts the pieces received |
| Reassembly.FirstKeepsSound | src/emsd/mts.one/segment.c:31-115 | The same for a first segment, also when the last one is handled again |
| Reassembly.Segments.HandleSegment | src/emsd/mts.one/segment.c:28-225 | The two masks, the slot array and the loop that appends the slots do what the set of received pieces says, with the same rejections, and the argument parsed at the end is the first one with all contents; a bit stays set exactly where a slot is filled, for a first segment provided none but the first was received before it (Performer.Operation.RunMachine shows that this is always so) |
| Reassembly.Segments.Fits | src/emsd/mts.one/segment.c:130-145 | The mask tests accept exactly the numbers that are expected and not there yet |
| Reassembly.Segments.Store | src/emsd/mts.one/segment.c:147-223 | One more piece is kept under its number, and completes the operation exactly when the masks are then equal |
| Reassembly.Segments.Concatenate | src/emsd/mts.one/segment.c:181-195 | The appending loop yields the pieces in order |
| Words.OneGreater | src/emsd/mts.one/segment.c:130 | `(1 << t) > mask` holds exactly when no bit at or above t is set in the mask |
| Words.BelowMembers | src/emsd/mts.one/segment.c:92-93 | `(1 << n) - 1` has exactly the bits below n, and none where the bit was shifted out |
| Cutting.CutIsExact | src/emsd/mts.one/deliver.c:515-604 | The pieces join to the content, each has 1 to 1400 octets and fits in 1500 with its envelope, only the last is short, there are at least two, and fewer would not do |
| Cutting.SegmentCounts | src/emsd/mts.one/deliver.c:532-570 | Which content lengths need fewer than 32, exactly 32, and too many pieces |
| Cutting.CutThenReassemble | src/emsd/mts.one/deliver.c:539-604 | Cutting and reassembling in any order gives the content back if and only if it needs at most 31 pieces or the machine shifts the bit out |
| Deliver.DeliveredMeansAcknowledged | src/emsd/mts.one/deliver.c:272-323 | A message is marked delivered only after every piece was invoked in increasing order and each was answered by its own RESULT.ind, through any failures and repetitions |
| Wire.EveryPdu | src/emsd/mts.one/deliver.c:539-842 | In every run every pdu handed over after k results carries the k-th 1400 octets of the content under the delivery's own number, the first one announcing how many there are; of a content sent whole it is the content, then at most an empty segment 1 |
| Wire.DeliveredIsRead | src/emsd/mts.one/deliver.c:539-653 | From every delivery that succeeded the device has the message: the pdus with a result, fed to the receiver in order, are all accepted, complete it at the last one and not before, and give the content back, if and only if it needs at most 31 segments or `1 << 32` is zero; of a content sent whole the first is the content itself |
| Wire.SmoothDelivery | src/emsd/mts.one/deliver.c:774-842 | Every content with no more than 32 segments is delivered when the transport takes everything and every segment is answered |
| Deliver.InvokesAreBounded | src/emsd/mts.one/deliver.c:434-456 | All retries together, a delivery invokes at most one pdu more than it has pieces (MTS_MAX_FAILURE_RETRIES - 1 more) if and only if it is cut, or the transport took the first hand-over of the whole message, or no later piece was handed over; otherwise exactly one further |
| Deliver.FailuresArePosted | src/emsd/mts.one/deliver.c:459-863 | In every run the actions post a FAILURE.ind for each hand-over the transport refused, and one for too many pieces, and no other |
| Deliver.RefusedWholeMessageExceeds | src/emsd/mts.one/deliver.c:621-653 | For every message sent whole: refused once, repeated and answered, it is followed by an empty piece number 1 |
| Deliver.DeliveryEnds | src/emsd/mts.one/deliver.c:774-863 | Every delivery ends after at most as many events as pieces and retries allow |
| Deliver.FateByLastEvent | src/emsd/mts.one/deliver.c:656-770 | Which of the outcomes a delivery has is decided by the event that ends it |
| Deliver.RunSound | src/emsd/mts.one/deliver.c:253-323 | What every run keeps: the log is in order, counts of results and invocations follow piece and retry numbers |
| Deliver.Operation.RunMachine | src/emsd/mts.one/deliver.c:253-323 | The transition tables, run by first matching row, do event by event what the state machine's meaning says, with the failures that actions post to their own machine counted |
| Deliver.Operation.DeliverRequest | src/emsd/mts.one/deliver.c:459-653 | The cutting with a moving parse position hands over the first piece of the planned cut, or the whole content, or gives up one with too many pieces |
| Deliver.Operation.SendNext | src/emsd/mts.one/deliver.c:774-842 | The next piece is the planned one under its number, and the last one completes the delivery |
| Deliver.Operation.ErrorIndication | src/emsd/mts.one/mpreproc.c:416-486 | Every ERROR.ind deletes the message, a resource error too, as the parsed request is not attached to the operation, and one that does not parse as well |
| Outcome.OneOutcome | src/emsd/mts.one/deliver.c:656-770 | A delivery that has ended leaves its message in exactly one state: succeeded, respooled with the queue ready and the next attempt 180 to 14400 seconds ahead, or deleted, with one success or one failure counted and one message less, or one attempt of the message; any other event leaves it in delivery |
| Outcome.StoreStaysOk | src/emsd/mts.one/msgstore.c:101-639 | Every run from the empty store, of adding, taking, scheduling passes, deliver-now requests and ends of deliveries over all recipients, keeps every queue in order, addresses distinct, and count = totalCount + failureCount |
| Queue.RunKeeps | src/emsd/mts.one/msgstore.c:256-566 | Every run of add, get, succeed, respool, delete, clean and deliver-now keeps the order of the list, first-in-first-out completion, the status rules and the books |
| Queue.AtMostOneInFlight | src/emsd/mts.one/msgstore.c:349-376 | In every run at most one message of a recipient is being delivered, and then its queue is RQ_DELIVERING |
| Queue.NeverHandedOutAgain | src/emsd/mts.one/msgstore.c:359-376 | In every run, after a message was completed only messages added later are handed out or completed |
| Queue.BooksBalance | src/emsd/mts.one/msgstore.c:387-462 | In every run count + successTotal + failureTotal is the number of messages added, and the uncompleted ones listed are count less those expired |
| Queue.RemovableIsPrefix | src/emsd/mts.one/msgstore.c:529-538 | The messages msg_cleanQueue removes are a prefix of the list |
| Queue.CleanIsSuffix | src/emsd/mts.one/msgstore.c:511-562 | What is left after cleaning is exactly the rest of the list |
| Queue.RespoolUsesFirstRetryTime | src/emsd/mts.one/deliver.c:953-986 | Every respooled message waits the first configured time, or ten minutes when that is out of range; the later times are never used |
| Timing.HandedExactly | src/emsd/mts.one/msgstore.c:346-376 | A message is handed out by msg_getMessage only, from a queue that is RQ_READY and whose next attempt has come, and it is the first that is ready or failed; the whole queue after it |
| Timing.RunHandsInTime | src/emsd/mts.one/msgstore.c:349-358 | In every run every entry of the trace for a message handed out was added by a call of msg_getMessage at a time not before the queue's next attempt, when the queue was ready |
| Timing.RetriedInTime | src/emsd/mts.one/deliver.c:953-986 | In every run a respooled message is repeated in its time: nothing is handed out before that as long as no message brings it forward and the device is not heard, and the first call from then on hands out the same message unless it expired |
| Timing.UpdateExactly | src/emsd/mts.one/msgstore.c:412-462 | msg_updateMessageStatus refuses a completed message; otherwise success completes it and frees its queue, any other status is stored and only decides whether the queue is ready, delivering, or as it was |
| Queue.DeletionIsTheEnd | src/emsd/mts.one/msgstore.c:387-407 | In every run of a new queue, once a delivery was deleted nothing is handed out or completed any more |
| Queue.StuckExactly | src/emsd/mts.one/msgstore.c:349-376 | A queue is stuck, that is RQ_DELIVERING with nothing in delivery, if and only if no run of it ever hands out a message |
| Queue.DeliveredYetReported | src/emsd/mts.one/msgstore.c:529-538 | Cleaning reports a delivered message as not delivered exactly when it expired within 15 minutes of its delivery |
| Queue.DeliveredYetReportedRun | src/emsd/mts.one/msgstore.c:529-538 | Such a run: delivered after 59 minutes, cleaned after 61 |
| MsgStore.RecipQueue.Add | src/emsd/mts.one/msgstore.c:257-323 | Walking to the end of the linked list and hanging the message there adds it at the end; forward links stay sound and no backward one is set |
| MsgStore.RecipQueue.FirstPendingMessage | src/emsd/mts.one/msgstore.c:359-364 | The walk finds the first message that is ready or failed |
| MsgStore.RecipQueue.MarkDelivering | src/emsd/mts.one/msgstore.c:365-371 | The message found and its queue are marked as in delivery, nothing else changes |
| MsgStore.RecipQueue.DeleteMessage | src/emsd/mts.one/msgstore.c:387-407 | Updating message and counters in place is the deletion of the queue model |
| MsgStore.RecipQueue.UpdateMessageStatus | src/emsd/mts.one/msgstore.c:412-462 | A completed message is refused; otherwise message and queue change as the status says, a number that is no status being stored and nothing else |
| MsgStore.RecipQueue.RespoolMessage | src/emsd/mts.one/deliver.c:953-986 | Message and queue are set up for the next attempt |
| MsgStore.RecipQueue.Clean | src/emsd/mts.one/msgstore.c:509-562 | The unlinking loop leaves a well linked list of exactly the messages kept and reports the expired ones in order; neither the branch for a set `prev` nor the "Queue error" branch is reached |
| Store.QueueExists | src/emsd/mts.one/msgstore.c:189-250 | An address gets a queue if and only if it has one or some subscriber id denotes it |
| Store.GetRecipQueueKeeps | src/emsd/mts.one/msgstore.c:189-250 | The queue found or made is the address's, and no address has two |
| Store.SubscriberNsap | src/emsd/mts.one/subpro.c:492-517 | A new queue belongs to the device of the first subscriber with the address |
| Adding.MessageReachesLists | src/emsd/mts.one/msgstore.c:101-182 | The list of every address is as it was, with one new message at its end, ready and with an hour to live, for every time the address is among the first 33 recipients that have a queue or a subscriber; the queue of an address that got none is as it was |
| Adding.QueueGrows | src/emsd/mts.one/msgstore.c:256-316 | What else such a queue holds: consecutive numbers, counts, status and next attempt, nothing else changed; a new one belongs to the first subscriber with the address |
| Adding.SucceedsExactly | src/emsd/mts.one/msgstore.c:147-181 | msg_addMessage succeeds if and only if some list grew; totalCount grows by the copies queued, failureCount by the recipients that have neither a queue nor a subscriber |
| Adding.WakesInTime | src/emsd/mts.one/msgstore.c:306-316 | The scheduler looks again no later than a queue that got the message is due, and that is within 30 seconds |
| Store.AddMessageBalances | src/emsd/mts.one/msgstore.c:101-182 | count = totalCount + failureCount is kept by msg_addMessage, and so is the order in every queue |
| Store.PassStartsEach | src/emsd/mts.one/todevice.c:67-106 | A pass starts exactly one delivery for each queue that is ready, due and holds a pending message, in the order of the queues, and leaves none behind |
| Store.PassIsPrefix | src/emsd/mts.one/todevice.c:67-106 | A pass that meets a message it cannot prepare has started what comes before it, and stops there |
| Store.PassStartsOnePerRecipient | src/emsd/mts.one/todevice.c:67-106 | No pass starts two deliveries for one recipient |
| Store.PassKeeps | src/emsd/mts.one/todevice.c:67-106 | A pass, with the message it gives up, keeps every queue in order |
| Store.GetMessageKeeps | src/emsd/mts.one/msgstore.c:331-381 | Cleaning and handing out keep what every run of a queue keeps |
| Timing.GetMessageExactly | src/emsd/mts.one/msgstore.c:331-381 | msg_getMessage takes a message if and only if the store's own next attempt has come and some queue is ready, due and has one waiting: from the first such queue, which is then under way; the whole store after it, with two seconds to wait when there was none |
| Timing.ToStartFrom | src/emsd/mts.one/msgstore.c:349-364 | What there is to start comes from ready, due queues with a message waiting, in the order of the queues, and is the first that waits |
| Timing.ToStartHas | src/emsd/mts.one/msgstore.c:349-364 | And every such queue has its place among them |
| Timing.PassLeaves | src/emsd/mts.one/todevice.c:67-106 | After a pass the queues served, in their order, have their message on its way, the next one has lost the message that could not be prepared, all others are as they were |
| Timing.TryDeliveryLeaves | src/emsd/mts.one/todevice.c:52-110 | So it is for the scheduler as a whole: it cleans first, and does nothing more before the store's own next attempt has come |
| Timing.DeliverNowExactly | src/emsd/mts.one/msgstore.c:621-639 | Of all queues exactly those of the device that count a message are due at once, and nothing else changes |
| Timing.HeardIsServed | src/emsd/mts.one/msgstore.c:621-639 | When a device is heard, the next pass starts the waiting message of each of its ready queues |
| Timing.CleanQueueExactly | src/emsd/mts.one/msgstore.c:484-562 | Cleaning skips itself within a minute; otherwise exactly the messages completed more than 15 minutes ago and the expired ones go, and nothing else changes |
| Timing.ReportsExactly | src/emsd/mts.one/msgstore.c:529-537 | Reported as not delivered are exactly the expired ones that were not completed more than 15 minutes ago |
| DeliveryQueue.Queues.GetRecipQueue | src/emsd/mts.one/msgstore.c:189-250 | The loop over the queues, the printed address and the subscriber search find or create the queue the model says |
| DeliveryQueue.Queues.AddMessage | src/emsd/mts.one/msgstore.c:101-182 | The recipient loop does what the model says, for recipients given as texts: skipped, queued, or counted as failed, up to 33 copies |
| DeliveryQueue.Queues.GetMessage | src/emsd/mts.one/msgstore.c:331-381 | Past the poll throttle, null only when no ready, due queue holds a ready or failed message; otherwise the first such message of the first such queue |
| DeliveryQueue.Queues.CleanQueue | src/emsd/mts.one/msgstore.c:466-566 | At most once a minute, or on a dump request, every queue is cleaned |
| DeliveryQueue.Queues.DeliverNow | src/emsd/mts.one/msgstore.c:621-639 | Exactly the queues of the device that count a message become due at once |
| DeliveryQueue.Queues.EndDelivery | src/emsd/mts.one/deliver.c:656-770 | The end of a delivery changes the queue its message points to, and no other |
| ToDevice.TryDelivery | src/emsd/mts.one/todevice.c:52-110 | The scheduling loop at a fixed clock ends and does what the model's pass says, on the linked queues |
| NsapIndex.Subscribers.Init | src/emsd/mts.one/subpro.c:264-288 | Indexing succeeds exactly for at most 16384 entries, and every entry is then reachable by probing |
| NsapIndex.Subscribers.GetEntry | src/emsd/mts.one/subpro.c:492-538 | A search by NSAP alone through the hash index, with at most count probes, finds the first entry a linear scan finds, or none; it can only differ where that entry is one of the blank ones past count; by subscriber id it is the linear scan |
| NsapIndex.RunIsShort | src/emsd/mts.one/subpro.c:273-281 | A run of occupied slots is no longer than the number of entries placed before |
| NsapIndex.ProbeMeets | src/emsd/mts.one/subpro.c:519-535 | What a probe meets decides the lookup or lies on the way to the first entry with the NSAP, around the end of the table too |
| NsapIndex.FullTable | src/emsd/mts.one/subpro.c:273-281 | With as many entries as slots no slot is empty |
| NsapIndex.FirstExactly | src/emsd/mts.one/subpro.c:492-538 | What a lookup is to find: the first entry with the address, or with the NSAP, or with both, and nothing when neither is asked for or the id denotes no address |
| Address.PlainTextReadsBack | src/emsd/mts.one/msgstore.c:575-619 | The decimal text of every 32-bit address reads back as the address |
| Address.DottedTextReadsBack | src/emsd/mts.one/parse_ipm.c:119-126 | So does the text of its thousands and the rest, zero-padded, whatever follows it |
| Address.RecipientIsRead | src/emsd/mts.one/msgstore.c:575-619 | The address of a recipient: a number, or two with a point between, as thousands and rest in 32 bits, whatever follows |
| Address.SignedIsRead | src/emsd/mts.one/msgstore.c:605-614 | White space and a plus sign before the number do not count, a minus sign negates it in 32 bits, and a number too large is the largest |
| Address.NoRecipient | src/emsd/mts.one/msgstore.c:575-619 | No address: a null pointer, a text that does not begin with a number, and three numbers |
| Address.PrintedAuaEqual | src/emsd/mts.one/subpro.c:540-575 | Comparing a subscriber id with a printed address compares the addresses |
| Address.PrintedFormsAreUnambiguous | src/emsd/mts.one/parse_ipm.c:119-126 | No two addresses share a printed form, in either notation or across the two |
| Address.NsapTextsCompare | src/emsd/mts.one/mpreproc.c:726-731 | Two NSAPs have the same text exactly when they are the same |
| Performer.SpooledAtMostOnce | src/emsd/mts.one/mperform.c:508-632 | In every run the message is spooled at most once, and never both spooled and removed |
| Performer.SpoolsWhatWasTaken | src/emsd/mts.one/mperform.c:1383-1413 | In every run what is spooled is the join, in order, of the contents of the segments taken |
| Performer.WhenItIsSpooled | src/emsd/mts.one/mperform.c:1553-1717 | Spooled only when complete, on RESULT.con or the answer to send it; removed only on another answer, or a failure, while the verify request is open; nothing happens after either |
| Performer.SubmissionRoundTrip | src/emsd/mts.one/mperform.c:726-838 | A submission in segments, each sent once the one before is confirmed, the later ones in any order: nothing is spooled before the last missing one is in, and then exactly the joined content |
| Performer.CutAndSubmitted | src/emsd/mts.one/segment.c:28-225 | A content cut as for a delivery and submitted piece by piece is spooled whole |
| Performer.WholeSubmission | src/emsd/mts.one/mperform.c:726-838 | A message submitted whole and confirmed is handed to the mailer, with its content, if and only if the device is known, the SAP is the 3-way one and the content is a message that parses; a spool that fails is reported |
| Performer.WholeSubmissionVerified | src/emsd/mts.one/mperform.c:1553-1717 | When its result fails instead, the device is asked, and its answer decides between the mailer and removal |
| Performer.SessionVerified | src/emsd/mts.one/mperform.c:1553-1717 | The same for a submission in segments, in any order, with the joined content |
| Performer.AskedExactly | src/emsd/mts.one/mperform.c:571-577 | The device is asked on the 2-way SAP if and only if it is known and the request can be made; otherwise no answer to it is possible |
| Performer.UnverifiedIsRemoved | src/emsd/mts.one/mperform.c:613-624 | When the device cannot be asked the message is removed |
| Performer.SegmentTakenExactly | src/emsd/mts.one/segment.c:130-145 | In the middle of a submission a segment is taken if and only if it is announced and missing; any other ends the submission with nothing spooled |
| Performer.BadCountIsRefused | src/emsd/mts.one/segment.c:46-54 | A submission that announces no segment, or more than 32, ends with nothing spooled, whatever follows |
| Performer.FailureGoesOn | src/emsd/mts.one/mperform.c:556-570 | A segment whose result fails is kept as one whose result is confirmed |
| Performer.OthersNeverSpool | src/emsd/mts.one/mperform.c:508-546 | An operation that is no submission never does anything with a message, whatever follows |
| Performer.EarlySegmentStaysMissing | src/emsd/mts.one/mperform.c:585-591 | A segment that arrives before the result for the one before it is confirmed is accepted and lost: in every run in which it is not sent again and only invocations arrive in the idle state, the submission stays incomplete and nothing is spooled |
| Performer.StrayEventTakesLastSegment | src/emsd/mts.one/mperform.c:508-546 | The exception: any other event in the idle state takes the last invocation's segment, and a first segment then starts one more timer |
| Performer.DuplicateEndsSubmission | src/emsd/mts.one/segment.c:139-145 | A segment that is there already is refused and sends the operation to the error state, from where it is freed with nothing spooled, whatever follows |
| Performer.TimersRunning | src/emsd/mts.one/segment.c:101-115 | In every run as many segmentation timers run for an operation as it took first segments of several, less one once its message is complete |
| Performer.OneFirst | src/emsd/mts.one/segment.c:31-115 | When nothing but invocations arrives in the idle state, a first segment is taken once at most |
| Performer.UnexpectedNeverTaken | src/emsd/mts.one/mperform.c:508-597 | As INVOKE.ind has the number of the default event, its rows catch every event: the rows for unexpected events of the first two states are never taken, and in the idle state any event is taken for one more arrival of the last invocation |
| Performer.TableIsStep | src/emsd/mts.one/mperform.c:508-691 | Taking the first matching row of the five tables is what the meaning of the state machine says |
| Performer.RunGood | src/emsd/mts.one/mperform.c:508-691 | What every run keeps: which states have a complete message and a file, and that the assembly holds exactly the segments taken |
| Performer.Operation.RunMachine | src/emsd/mts.one/mperform.c:508-691 | The engine's loop over the tables, with predicates that change the operation, does event by event what the meaning says, and after every event a bit of the received mask is set exactly where a slot is filled |
| Performer.Operation.CollectSubmit | src/emsd/mts.one/mperform.c:790-838 | Segment handling, completion and the hand-over to the parser, in the operation's own fields |
| Router.InterleavedSubmission | src/emsd/mts.one/mpreproc.c:143-166 | Among any number of other sessions and deliveries, a submission in segments whose key stays its own is spooled exactly when the result for its last missing segment is confirmed, and its content is the join of its own segments |
| Router.SessionFollows | src/emsd/mts.one/mpreproc.c:715-742 | An operation whose key no other active one has is where its own events bring it, whatever else happens |
| Router.SpooledIsOwn | src/emsd/mts.one/mpreproc.c:715-742 | In every run of the server what is spooled was sent by the operation's own device, later segments under its own sequence id |
| Router.OthersUntouched | src/emsd/mts.one/mpreproc.c:245-306 | An event changes no operation but its own |
| Router.ActiveAreUnfreed | src/emsd/mts.one/oper.c:108-129 | In every run the active queue holds exactly the operations allocated for which mts_freeOperation has not been called |
| Router.FreedOnceExactly | src/emsd/mts.one/mperform.c:1901-1914 | In every run an operation that has ended is never freed again if and only if no timer runs for it: the first segments it took, less one when its message is complete, are no more than its timers that expired |
| Router.FreedTwice | src/emsd/mts.one/segment.c:205-214 | Two segments of three, the second sent twice: the operation is freed after the error, and again by the timer that nothing stops |
| Router.LaterSessionGetsNothing | src/emsd/mts.one/mpreproc.c:723-739 | Of two active operations with the same key the later gets no segment |
| Router.SegmentEndsDelivery | src/emsd/mts.one/mpreproc.c:723-739 | A segment whose key is that of a delivery under way ends the delivery, whose message is neither delivered nor put back |
| Router.DeliveryIsItself | src/emsd/mts.one/esrosevt.c:170-364 | A delivery begun in any run of the server goes to its own device and is, among all others, where its own events bring it, and active until they end it, as long as no segment is taken for one of its own |
| Router.Preprocessor.FindOperationBySequenceId | src/emsd/mts.one/mpreproc.c:715-742 | The loop that compares NSAPs as texts finds the oldest active operation with the key |
| Router.Preprocessor.Associate | src/emsd/mts.one/mpreproc.c:143-306 | A later segment goes to the operation found, or is dropped; anything else goes to a new operation at the end of the queue |
| Router.Preprocessor.SegmentationTimerExpired | src/emsd/mts.one/mperform.c:1901-1914 | The timer frees its operation, whether or not it is still there, and keeps what every run keeps |
| Preprocess.InvokeIndication | src/emsd/mts.one/mpreproc.c:62-312 | The device's deliveries become due whatever was received; a pdu that parses goes to its operation, one that does not or has an unknown operation value changes none, and an event follows exactly when there is an operation for it |
| UserFree.LatestRemain | src/emsd/mts.one/oper.c:160-221 | For each piece of data the registrations in force are the latest ones, as many as were not taken back: unregistering cancels the oldest |
| UserFree.TakenBackIsNotFreed | src/emsd/mts.one/oper.c:194-221 | Data is left alone exactly when it was unregistered as often as registered, and freed as often as registered when never unregistered |
| UserFree.UserFreeQueue.DelUserFree | src/emsd/mts.one/oper.c:194-221 | The search loop removes the oldest entry for the data, and calls nothing |
| UserFree.UserFreeQueue.FreeAll | src/emsd/mts.one/oper.c:139-155 | The loop ends with an empty queue, having called each registered pair exactly once, oldest first |
| Header.StripCR | src/emsd/mts.one/rfc2emsd.c:921-935 | Copying down the buffer in place is filtering out every carriage return |
| Header.ItemsJoin | src/emsd/mts.one/rfc2emsd.c:937-956 | The items of a newline-terminated header, written out again, are the header, and no item but the first starts with a blank |
| Header.ItemsOfUnlines | src/emsd/mts.one/rfc2emsd.c:937-956 | Folded items that can be told apart come back exactly as they were: the header is taken apart in the only possible way |
| Header.FindEnd | src/emsd/mts.one/rfc2emsd.c:939-956 | The searches for newlines end at the first one not followed by a blank, and run into a null pointer exactly when the item is folded and the text ends without one |
| Header.WalkFailsExactly | src/emsd/mts.one/rfc2emsd.c:937-1115 | The walk runs into the null pointer if and only if the text ends in a continuation line without a newline and every item before that one has a place in the heading; otherwise it comes to what its items say |
| Header.ContinuationFails | src/emsd/mts.one/rfc2emsd.c:950-955 | A header for which it does |
| Header.StopsBeforeHere | src/emsd/mts.one/rfc2emsd.c:1043-1048 | A header that ends in such a line and is nevertheless walked, as an item before it has no colon |
| Header.EveryItemOnce | src/emsd/mts.one/rfc2emsd.c:958-1111 | Every item before the first without a colon is ignored, or is the value of a MIME field, of which the last stays, or is the next extension, and exactly one of these |
| HeaderFields.FieldsReadBack | src/emsd/mts.one/rfc2emsd.c:958-1111 | A header written field by field reads back: the unknown fields in order, name before the colon and value after it without leading blanks; the last value of every MIME field, its name in any case; fields other code reads change nothing, nor does anything after an item that is no field |
| HeaderFields.HeaderReadsBack | src/emsd/mts.one/rfc2emsd.c:803-1115 | So it is for headers with CRLF line ends and the names the code has |
| HeaderFields.TheyAreToldApart | src/emsd/mts.one/rfc2emsd.c:814-905 | No text begins with a MIME name and with another of the names that is looked for before it |
| Header.ParseHeaderString | src/emsd/mts.one/rfc2emsd.c:803-1115 | For every header the walk through one buffer, with the names the code has, comes to what the item-by-item meaning says, or to the null pointer where that does |

## Left out

- The ASN.1 trees and the encoding and decoding of pdus: whether a pdu parses is an argument, and formatting is assumed to succeed.
- Files, directories, pipes, the mailer and non-delivery reports: spooling, removing and reporting are entries in a log.
- Allocation failures: every allocation, registration in a free list and start of a segmentation timer is assumed to succeed.
- Reading the configuration: the subscriber array is given, with the number of entries filled in.
- Trace output and the management interfaces.
- `verify_setStatus` and `verify_getStatus` in `mperform.c`, a temporary array.
- `parseRfc822Date`: its time-zone carry is not calendar arithmetic.
- The list of recipients is a sequence: msg_addMessage takes the head of a circular queue by value and guards against going round it.
- The list of recipient queues, linked in the code, is a sequence here; the list of messages of each queue is modelled with its pointers.
- Freed memory: what is done with memory that was freed has no meaning here; that operations are freed again by their timers is counted, a removed message is no longer listed, and that nothing uses it again is the assumption that deliveries end before their message expires.
- Counters and times are unbounded naturals; sequence ids, segment numbers, addresses and the masks have their 32 bits.
- Router.Preprocessor.Associate: holds the state of each operation as a value, not as the operation object of Performer or Deliver.
- Header.ParseHeaderString: terminators the code writes into the buffer and takes back are slices, and the number of extensions is not bounded.
- Router.InterleavedSubmission: the segmentation timer does not expire during the session, which is the timer's purpose to cut short.
