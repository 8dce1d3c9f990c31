/**
 What the end of a delivery does to the recipient's queue: the actions of deliver.c that finish an
 operation, joined with the message store they call; and with that, runs of the whole store.
 */
module Outcome {
  import opened Common
  import opened Fsm
  import opened Queue
  import Deliver
  import Cutting
  import Store
  import NsapIndex

  /** The queue once the delivery of message i has ended; Abandoned leaves everything as it is. */
  function Finish(q: Recip, i: nat, fate: Deliver.Fate, now: nat, retryTimes: seq<nat>): Recip
    requires i < |q.msgs| && (fate.Respooled? ==> retryTimes != [])
  {
    match fate
    case Succeeded => Update(q, i, MQ_SUCCEDED, now).1
    case Respooled => Respool(q, i, now, retryTimes)
    case Deleted => Delete(q, i, now)
    case Abandoned => q
  }

  /** The ends a delivery can come to, told apart by what can be seen in the queue. */
  predicate IsSucceeded(q: Recip, i: nat, now: nat)
    requires i < |q.msgs|
  {
    q.msgs[i].status.MQ_SUCCEDED? && q.msgs[i].completed == now && q.status.RQ_READY? && q.nextAttempt == now
  }

  predicate IsRespooled(q: Recip, i: nat, now: nat)
    requires i < |q.msgs|
  {
    && q.msgs[i].status.MQ_FAILED? && q.msgs[i].completed == 0 && q.status.RQ_READY?
    && now + MIN_DELAY <= q.nextAttempt <= now + MAX_DELAY
  }

  predicate IsDeleted(q: Recip, i: nat, now: nat)
    requires i < |q.msgs|
  {
    q.msgs[i].status.MQ_FAILED? && q.msgs[i].completed == now && q.status.RQ_DELIVERING?
  }

  predicate IsUnfinished(q: Recip, i: nat)
    requires i < |q.msgs|
  {
    q.msgs[i].status.MQ_DELIVERING? && q.status.RQ_DELIVERING?
  }

  /**
   What the end of a delivery counts: a success or a failure for the queue and one message less, or one
   failed attempt of the message. Nothing else of the message or the queue changes but statuses and times.
   */
  ghost predicate Counts(q: Recip, q': Recip, i: nat, won: bool, again: bool, lost: bool, now: nat)
    requires i < |q.msgs| == |q'.msgs|
  {
    && q'.successTotal == q.successTotal + (if won then 1 else 0)
    && q'.failureTotal == q.failureTotal + (if lost then 1 else 0)
    && q'.count == q.count - (if won || lost then 1 else 0)
    && q'.trace == q.trace + (if won || lost then [Completed(q.msgs[i].number)] else [])
    && q'.msgs[i].failures == q.msgs[i].failures + (if again then 1 else 0)
    && q'.msgs[i].number == q.msgs[i].number && q'.msgs[i].expiry == q.msgs[i].expiry
    && q'.addr == q.addr && q'.nsap == q.nsap && q'.added == q.added && q'.expired == q.expired
    && (won || again ==> q'.lastAttempt == now) && (again ==> q'.msgs[i].lastAttempt == now)
    && (!won && !again ==> q'.nextAttempt == q.nextAttempt && q'.lastAttempt == q.lastAttempt)
  }

  lemma {:induction false} FinishCounts(q: Recip, i: nat, fate: Deliver.Fate, now: nat, retryTimes: seq<nat>)
    requires i < |q.msgs| && q.msgs[i].completed == 0 && retryTimes != []
    ensures var q' := Finish(q, i, fate, now, retryTimes);
            |q'.msgs| == |q.msgs| && Counts(q, q', i, fate.Succeeded?, fate.Respooled?, fate.Deleted?, now)
  {
  }

  /**
   A delivery that has ended leaves its message in exactly one of the three planned outcomes, and
   which one is decided by the event that ended it; any other event leaves the message in delivery
   with no operation to end it.
   */
  lemma OneOutcome(plan: Cutting.Plan, es: seq<Deliver.Event>, e: Deliver.Event,
                   q: Recip, i: nat, now: nat, retryTimes: seq<nat>)
    requires Deliver.DeliveryRun(plan, es + [e]) && es != []
    requires Deliver.Run(Deliver.Fresh(plan), es).phase.Waiting?
    requires Deliver.Run(Deliver.Fresh(plan), es + [e]).phase.Done?
    requires Inv(q, now) && InFlight(q, i) && now > 0 && retryTimes != []
    ensures var fate := Deliver.Run(Deliver.Fresh(plan), es + [e]).phase.fate;
            var q' := Finish(q, i, fate, now, retryTimes);
            && Inv(q', now) && |q'.msgs| == |q.msgs|
            && (IsSucceeded(q', i, now) <==> e.evt == RESULT_IND)
            && (IsRespooled(q', i, now) <==> e.evt == FAILURE_IND)
            && (IsDeleted(q', i, now) <==> e.evt == ERROR_IND)
            && (IsUnfinished(q', i) <==> e.evt !in {RESULT_IND, FAILURE_IND, ERROR_IND})
            && (forall j :: 0 <= j < |q.msgs| && j != i ==> q'.msgs[j] == q.msgs[j])
            && Counts(q, q', i, e.evt == RESULT_IND, e.evt == FAILURE_IND, e.evt == ERROR_IND, now)
  {
    Deliver.FateByLastEvent(plan, es, e);
    OneInFlight(q, now, i, i);
    FinishCounts(q, i, Deliver.Run(Deliver.Fresh(plan), es + [e]).phase.fate, now, retryTimes);
    FinishShows(q, i, Deliver.Run(Deliver.Fresh(plan), es + [e]).phase.fate, now, retryTimes);
  }

  /** What became of a delivery can be seen in the queue. */
  lemma {:induction false} FinishShows(q: Recip, i: nat, fate: Deliver.Fate, now: nat, retryTimes: seq<nat>)
    requires Inv(q, now) && InFlight(q, i) && now > 0 && retryTimes != []
    ensures var q' := Finish(q, i, fate, now, retryTimes);
            && Inv(q', now) && |q'.msgs| == |q.msgs|
            && (IsSucceeded(q', i, now) <==> fate.Succeeded?)
            && (IsRespooled(q', i, now) <==> fate.Respooled?)
            && (IsDeleted(q', i, now) <==> fate.Deleted?)
            && (IsUnfinished(q', i) <==> fate.Abandoned?)
            && (forall j :: 0 <= j < |q.msgs| && j != i ==> q'.msgs[j] == q.msgs[j])
  {
    OneInFlight(q, now, i, i);
    FinishKeeps(q, i, fate, now, retryTimes);
    match fate
    case Succeeded => SucceededShows(q, i, now);
    case Respooled => RespooledShows(q, i, now, retryTimes);
    case Deleted => DeletedShows(q, i, now);
    case Abandoned =>
  }

  lemma SucceededShows(q: Recip, i: nat, now: nat)
    requires i < |q.msgs| && q.msgs[i].completed == 0
    ensures var q' := Update(q, i, MQ_SUCCEDED, now).1;
            && |q'.msgs| == |q.msgs| && IsSucceeded(q', i, now)
            && (forall j :: 0 <= j < |q.msgs| && j != i ==> q'.msgs[j] == q.msgs[j])
  {
  }

  lemma RespooledShows(q: Recip, i: nat, now: nat, retryTimes: seq<nat>)
    requires i < |q.msgs| && q.msgs[i].completed == 0 && retryTimes != []
    ensures var q' := Respool(q, i, now, retryTimes);
            && |q'.msgs| == |q.msgs| && IsRespooled(q', i, now)
            && (forall j :: 0 <= j < |q.msgs| && j != i ==> q'.msgs[j] == q.msgs[j])
  {
  }

  lemma DeletedShows(q: Recip, i: nat, now: nat)
    requires i < |q.msgs| && q.msgs[i].completed == 0 && q.status.RQ_DELIVERING?
    ensures var q' := Delete(q, i, now);
            && |q'.msgs| == |q.msgs| && IsDeleted(q', i, now)
            && (forall j :: 0 <= j < |q.msgs| && j != i ==> q'.msgs[j] == q.msgs[j])
  {
  }

  lemma FinishKeeps(q: Recip, i: nat, fate: Deliver.Fate, now: nat, retryTimes: seq<nat>)
    requires Inv(q, now) && InFlight(q, i) && now > 0 && retryTimes != []
    ensures Inv(Finish(q, i, fate, now, retryTimes), now)
  {
    OneInFlight(q, now, i, i);
    match fate
    case Succeeded => SucceedKeeps(q, i, now);
    case Respooled => RespoolKeeps(q, i, now, retryTimes);
    case Deleted => DeleteKeeps(q, i, now);
    case Abandoned =>
  }

  // ---------- runs of the whole store ----------

  /** What can happen to the delivery queues; Ends is the end of the delivery of message j of queue i. */
  datatype StoreOp =
    | MessageAdded(entries: seq<NsapIndex.Profile>, recipients: seq<Uint32>)
    | MessageTaken(dump: bool)
    | DeviceHeard(nsap: Nsap)
    | PassMade(dump: bool, prepares: set<Store.Started>)
    | Ends(i: nat, j: nat, fate: Deliver.Fate, retryTimes: seq<nat>)

  ghost predicate PossibleOp(s: Store.Store, op: StoreOp) {
    op.Ends? ==> op.i < |s.recips| && InFlight(s.recips[op.i], op.j) && op.retryTimes != []
  }

  ghost function ApplyOp(s: Store.Store, op: StoreOp, now: nat): Store.Store
    requires PossibleOp(s, op)
  {
    match op
    case MessageAdded(entries, recipients) => Store.AddMessage(s, entries, recipients, now).0
    case MessageTaken(dump) => Store.GetMessage(s, now, dump).1
    case DeviceHeard(nsap) => Store.DeliverNow(s, nsap, now)
    case PassMade(dump, prepares) => Store.TryDelivery(s, now, dump, prepares).1
    case Ends(i, j, fate, retryTimes) => s.(recips := s.recips[i := Finish(s.recips[i], j, fate, now, retryTimes)])
  }

  /** Every queue is in order, no address has two, and every copy counted was queued or failed. */
  ghost predicate StoreOk(s: Store.Store, clock: nat) {
    Store.Inv(s, clock) && s.count == s.totalCount + s.failureCount
  }

  lemma LaterIsOk(s: Store.Store, clock: nat, now: nat)
    requires StoreOk(s, clock) && clock <= now
    ensures StoreOk(s, now)
  {
    forall i | 0 <= i < |s.recips| ensures Queue.Inv(s.recips[i], now) {
      LaterKeeps(s.recips[i], clock, now);
    }
  }

  lemma DeviceHeardKeeps(s: Store.Store, nsap: Nsap, now: nat)
    requires StoreOk(s, now)
    ensures StoreOk(Store.DeliverNow(s, nsap, now), now)
  {
    forall i | 0 <= i < |s.recips| ensures Queue.Inv(Store.DeliverNow(s, nsap, now).recips[i], now) {
      DeliverNowKeeps(s.recips[i], now);
    }
  }

  lemma EndsKeeps(s: Store.Store, i: nat, j: nat, fate: Deliver.Fate, now: nat, retryTimes: seq<nat>)
    requires StoreOk(s, now) && now > 0 && i < |s.recips| && InFlight(s.recips[i], j) && retryTimes != []
    ensures StoreOk(s.(recips := s.recips[i := Finish(s.recips[i], j, fate, now, retryTimes)]), now)
  {
    FinishKeeps(s.recips[i], j, fate, now, retryTimes);
    OneInFlight(s.recips[i], now, j, j);
    FinishCounts(s.recips[i], j, fate, now, retryTimes);
  }

  lemma PassMadeKeeps(s: Store.Store, now: nat, dump: bool, prepares: set<Store.Started>)
    requires StoreOk(s, now) && now > 0
    ensures StoreOk(Store.TryDelivery(s, now, dump, prepares).1, now)
  {
    Store.CleanQueueKeeps(s, now, dump);
    var c := Store.CleanQueue(s, now, dump);
    if c.nextAttempt <= now {
      Store.PassKeeps(c, now, prepares);
      Store.PassCounts(c, now, prepares);
    }
  }

  lemma OpKeeps(s: Store.Store, op: StoreOp, now: nat)
    requires StoreOk(s, now) && now > 0 && PossibleOp(s, op)
    ensures StoreOk(ApplyOp(s, op, now), now)
  {
    match op
    case MessageAdded(entries, recipients) => Store.AddMessageBalances(s, entries, recipients, now);
    case MessageTaken(dump) => Store.GetMessageKeeps(s, now, dump);
    case DeviceHeard(nsap) => DeviceHeardKeeps(s, nsap, now);
    case PassMade(dump, prepares) => PassMadeKeeps(s, now, dump, prepares);
    case Ends(i, j, fate, retryTimes) => EndsKeeps(s, i, j, fate, now, retryTimes);
  }

  datatype TimedOp = TimedOp(op: StoreOp, now: nat)

  ghost predicate StoreRuns(s: Store.Store, clock: nat, es: seq<TimedOp>, s': Store.Store)
    decreases |es|
  {
    if es == [] then s' == s
    else
      && clock <= es[0].now && es[0].now > 0 && PossibleOp(s, es[0].op)
      && StoreRuns(ApplyOp(s, es[0].op, es[0].now), es[0].now, es[1..], s')
  }

  function EndTime(clock: nat, es: seq<TimedOp>): nat {
    if es == [] then clock else es[|es| - 1].now
  }

  /** Every run of the store, for whichever recipients and in whichever order, keeps it so. */
  lemma {:induction false} StoreRunKeeps(s: Store.Store, clock: nat, es: seq<TimedOp>, s': Store.Store)
    requires StoreOk(s, clock) && StoreRuns(s, clock, es, s')
    ensures StoreOk(s', EndTime(clock, es))
    decreases |es|
  {
    if es != [] {
      LaterIsOk(s, clock, es[0].now);
      OpKeeps(s, es[0].op, es[0].now);
      StoreRunKeeps(ApplyOp(s, es[0].op, es[0].now), es[0].now, es[1..], s');
    }
  }

  /** In every run of the store from its beginning. */
  lemma {:induction false} StoreStaysOk(es: seq<TimedOp>, s: Store.Store)
    requires StoreRuns(Store.EMPTY, 0, es, s)
    ensures StoreOk(s, EndTime(0, es))
  {
    StoreRunKeeps(Store.EMPTY, 0, es, s);
  }
}
