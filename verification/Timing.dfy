/**
 When messages are handed out (msg_getMessage, msg_deliverNow, msg_cleanQueue, deliveryRespool): which
 queue is served and which is left alone until its time, said of statuses and times alone.
 */
module Timing {
  import opened Common
  import opened Queue
  import opened Queues = Store

  // ---------- one queue ----------

  /** The message waits for a delivery: it is new, or one failed. */
  predicate Asks(m: Msg) { m.status == MQ_READY || m.status == MQ_FAILED }

  /** A queue from which a message is taken now. */
  ghost predicate Takes(q: Recip, now: nat) {
    q.status == RQ_READY && q.nextAttempt <= now && exists j :: 0 <= j < |q.msgs| && Asks(q.msgs[j])
  }

  /** Message j is the one whose turn it is. */
  ghost predicate Turns(q: Recip, j: nat) {
    j < |q.msgs| && Asks(q.msgs[j]) && forall k :: 0 <= k < j ==> !Asks(q.msgs[k])
  }

  /** The queue once message j is on its way. */
  function Under(q: Recip, j: nat, now: nat): Recip
    requires j < |q.msgs|
  {
    var m := q.msgs[j];
    q.(msgs := q.msgs[..j] + [Msg(m.number, MQ_DELIVERING, m.completed, now, m.expiry, m.failures)] + q.msgs[j + 1..],
       status := RQ_DELIVERING, lastAttempt := now, trace := q.trace + [Handed(m.number)])
  }

  lemma {:induction false} EligibleExactly(q: Recip, now: nat)
    ensures Eligible(q, now).Some? <==> Takes(q, now)
    ensures Takes(q, now) ==> Turns(q, Eligible(q, now).value) && HandOut(q, Eligible(q, now).value, now) == Under(q, Eligible(q, now).value, now)
  {
    var f := FirstPending(q.msgs);
    if f.Some? {
      assert Asks(q.msgs[f.value]);
      forall k | 0 <= k < f.value ensures !Asks(q.msgs[k]) {
        assert !Pending(q.msgs[k]);
      }
      if Takes(q, now) {
        assert HandOut(q, f.value, now).msgs == Under(q, f.value, now).msgs;
      }
    } else {
      forall k | 0 <= k < |q.msgs| ensures !Asks(q.msgs[k]) {
        assert !Pending(q.msgs[k]);
      }
    }
  }

  lemma TurnIsUnique(q: Recip, i: nat, j: nat)
    requires Turns(q, i) && Turns(q, j)
    ensures i == j
  {
  }

  /**
   A message is handed out by msg_getMessage only, from a queue that is ready and whose time has come, and
   it is the first that waits; nothing else happens to the queue then, and otherwise nothing is handed out.
   */
  lemma {:induction false} HandedExactly(q: Recip, op: QueueOp, now: nat, j: nat)
    requires Possible(q, op)
    ensures var q' := Apply(q, op, now);
            if op.GetMessage? && Takes(q, now) then Turns(q, j) ==> q' == Under(q, j, now)
            else
              && |q.trace| <= |q'.trace| && q'.trace[..|q.trace|] == q.trace
              && (op.GetMessage? ==> q' == q)
              && forall k :: |q.trace| <= k < |q'.trace| ==> q'.trace[k].Completed?
  {
    EligibleExactly(q, now);
    if op.GetMessage? && Takes(q, now) && Turns(q, j) {
      TurnIsUnique(q, j, Eligible(q, now).value);
    }
  }

  /** Entry k of the trace was added by a call of msg_getMessage, from a queue that was ready and due. */
  ghost predicate HandedInTime(q: Recip, clock: nat, es: seq<Timed>, k: nat, number: nat) {
    exists p, mid, j: nat ::
      && 0 <= p < |es| && es[p].op == GetMessage && Runs(q, clock, es[..p], mid)
      && |mid.trace| == k && mid.status == RQ_READY && mid.nextAttempt <= es[p].now
      && Turns(mid, j) && mid.msgs[j].number == number
  }

  lemma {:induction false} HandedLater(q: Recip, clock: nat, es: seq<Timed>, k: nat, number: nat)
    requires es != [] && clock <= es[0].now && es[0].now > 0 && Possible(q, es[0].op)
    requires HandedInTime(Apply(q, es[0].op, es[0].now), es[0].now, es[1..], k, number)
    ensures HandedInTime(q, clock, es, k, number)
  {
    var next := Apply(q, es[0].op, es[0].now);
    var p, mid, j: nat :|
      && 0 <= p < |es[1..]| && es[1..][p].op == GetMessage && Runs(next, es[0].now, es[1..][..p], mid)
      && |mid.trace| == k && mid.status == RQ_READY && mid.nextAttempt <= es[1..][p].now
      && Turns(mid, j) && mid.msgs[j].number == number;
    assert es[..p + 1][1..] == es[1..][..p];
    assert Runs(q, clock, es[..p + 1], mid);
    assert es[p + 1] == es[1..][p];
  }

  lemma {:induction false} HandedFirst(q: Recip, clock: nat, es: seq<Timed>)
    requires es != [] && es[0].op == GetMessage && Takes(q, es[0].now)
    ensures |Apply(q, GetMessage, es[0].now).trace| == |q.trace| + 1
    ensures HandedInTime(q, clock, es, |q.trace|, Apply(q, GetMessage, es[0].now).trace[|q.trace|].number)
  {
    EligibleExactly(q, es[0].now);
    var j := Eligible(q, es[0].now).value;
    assert Runs(q, clock, es[..0], q);
    assert Turns(q, j);
  }

  /** In every run every message handed out came from a queue that was ready and whose time had come. */
  lemma {:induction false} RunHandsInTime(q: Recip, clock: nat, es: seq<Timed>, q': Recip, k: nat)
    requires Runs(q, clock, es, q') && |q.trace| <= k < |q'.trace| && q'.trace[k].Handed?
    ensures HandedInTime(q, clock, es, k, q'.trace[k].number)
    decreases |es|
  {
    var e := es[0];
    var next := Apply(q, e.op, e.now);
    HandedExactly(q, e.op, e.now, 0);
    TraceStays(next, e.now, es[1..], q');
    if e.op == GetMessage && Takes(q, e.now) {
      HandedFirst(q, clock, es);
      assert next.trace[|q.trace|] == q'.trace[|q.trace|];
    }
    if k >= |next.trace| {
      RunHandsInTime(next, e.now, es[1..], q', k);
      HandedLater(q, clock, es, k, q'.trace[k].number);
    } else {
      assert next.trace[k] == q'.trace[k];
    }
  }

  lemma {:induction false} TraceStays(q: Recip, clock: nat, es: seq<Timed>, q': Recip)
    requires Runs(q, clock, es, q')
    ensures |q.trace| <= |q'.trace| && q'.trace[..|q.trace|] == q.trace
    decreases |es|
  {
    if es != [] {
      var next := Apply(q, es[0].op, es[0].now);
      TraceStays(next, es[0].now, es[1..], q');
      TraceStep(q, es[0].op, es[0].now);
      assert q'.trace[..|q.trace|] == q'.trace[..|next.trace|][..|q.trace|];
    }
  }

  lemma {:induction false} TraceStep(q: Recip, op: QueueOp, now: nat)
    requires Possible(q, op)
    ensures var q' := Apply(q, op, now); |q.trace| <= |q'.trace| && q'.trace[..|q.trace|] == q.trace
  {
  }

  // ---------- after a failed delivery ----------

  /** A queue that waits until t, with nothing on its way, and message `number` next in turn until it expires. */
  ghost predicate WaitsUntil(q: Recip, t: nat, number: nat, expiry: nat) {
    && q.status == RQ_READY && q.nextAttempt == t
    && (forall i :: 0 <= i < |q.msgs| ==> q.msgs[i].status != MQ_DELIVERING)
    && NextIs(q.msgs, number, expiry)
  }

  ghost predicate NextIs(msgs: seq<Msg>, number: nat, expiry: nat) {
    msgs != [] &&
    if Asks(msgs[0]) then msgs[0].number == number && msgs[0].expiry == expiry && msgs[0].completed == 0
    else NextIs(msgs[1..], number, expiry)
  }

  lemma {:induction false} TurnIsNext(q: Recip, i: nat)
    requires Turns(q, i) && q.msgs[i].completed == 0
    ensures NextIs(q.msgs, q.msgs[i].number, q.msgs[i].expiry)
  {
    TurnIsNextIn(q.msgs, i);
  }

  lemma {:induction false} TurnIsNextIn(msgs: seq<Msg>, i: nat)
    requires i < |msgs| && Asks(msgs[i]) && msgs[i].completed == 0 && forall k :: 0 <= k < i ==> !Asks(msgs[k])
    ensures NextIs(msgs, msgs[i].number, msgs[i].expiry)
  {
    if i > 0 {
      TurnIsNextIn(msgs[1..], i - 1);
    }
  }

  lemma {:induction false} NextHasTurn(msgs: seq<Msg>, number: nat, expiry: nat) returns (i: nat)
    requires NextIs(msgs, number, expiry)
    ensures i < |msgs| && Asks(msgs[i]) && msgs[i].number == number && forall k :: 0 <= k < i ==> !Asks(msgs[k])
  {
    if Asks(msgs[0]) {
      i := 0;
    } else {
      i := NextHasTurn(msgs[1..], number, expiry);
      i := i + 1;
    }
  }

  lemma {:induction false} NextStaysKept(msgs: seq<Msg>, now: nat, number: nat, expiry: nat)
    requires NextIs(msgs, number, expiry) && now <= expiry
    ensures NextIs(Kept(msgs, now), number, expiry)
  {
    if Asks(msgs[0]) {
      assert Kept(msgs, now)[0] == msgs[0];
    } else {
      NextStaysKept(msgs[1..], now, number, expiry);
      if Removable(msgs[0], now) {
        assert Kept(msgs, now) == Kept(msgs[1..], now);
      } else {
        assert Kept(msgs, now)[0] == msgs[0] && Kept(msgs, now)[1..] == Kept(msgs[1..], now);
      }
    }
  }

  lemma {:induction false} NextStaysBefore(msgs: seq<Msg>, m: Msg, number: nat, expiry: nat)
    requires NextIs(msgs, number, expiry)
    ensures NextIs(msgs + [m], number, expiry)
  {
    if !Asks(msgs[0]) {
      NextStaysBefore(msgs[1..], m, number, expiry);
      assert (msgs + [m])[1..] == msgs[1..] + [m];
    }
  }

  /** The event comes before t, and does not bring the queue's next attempt forward. */
  predicate Early(e: Timed, t: nat) {
    e.now < t && !e.op.DeliverNowRequest? && (e.op.AddMessage? ==> t <= e.now + 30)
  }

  lemma {:induction false} EarlyChangesNothing(q: Recip, e: Timed, t: nat, number: nat, expiry: nat)
    requires WaitsUntil(q, t, number, expiry) && Possible(q, e.op) && Early(e, t) && e.now <= expiry
    ensures WaitsUntil(Apply(q, e.op, e.now), t, number, expiry) && Apply(q, e.op, e.now).trace == q.trace
  {
    if e.op.GetMessage? {
      HandedExactly(q, e.op, e.now, 0);
    } else if e.op.AddMessage? {
      NextStaysBefore(q.msgs, Msg(q.added, MQ_READY, 0, 0, e.now + EXPIRY, 0), number, expiry);
    } else if e.op.CleanQueue? {
      NoneDeliveringKept(q.msgs, e.now);
      NextStaysKept(q.msgs, e.now, number, expiry);
    }
  }

  lemma {:induction false} NothingEarly(q: Recip, clock: nat, es: seq<Timed>, q': Recip, t: nat, number: nat, expiry: nat)
    requires WaitsUntil(q, t, number, expiry) && Runs(q, clock, es, q')
    requires forall i :: 0 <= i < |es| ==> Early(es[i], t) && es[i].now <= expiry
    ensures WaitsUntil(q', t, number, expiry) && q'.trace == q.trace
    decreases |es|
  {
    if es != [] {
      assert Early(es[0], t);
      EarlyChangesNothing(q, es[0], t, number, expiry);
      NothingEarly(Apply(q, es[0].op, es[0].now), es[0].now, es[1..], q', t, number, expiry);
    }
  }

  lemma {:induction false} RespooledWaits(q: Recip, clock: nat, i: nat, now: nat, retryTimes: seq<nat>)
    requires Queue.Inv(q, clock) && InFlight(q, i) && retryTimes != []
    ensures var q' := Respool(q, i, now, retryTimes);
            && now + MIN_DELAY <= q'.nextAttempt
            && WaitsUntil(q', q'.nextAttempt, q.msgs[i].number, q.msgs[i].expiry)
  {
    var q' := Respool(q, i, now, retryTimes);
    OtherIsNotInFlight(q, clock, i, i);
    forall k | 0 <= k < |q'.msgs|
      ensures q'.msgs[k].status != MQ_DELIVERING
      ensures k < i ==> !Asks(q'.msgs[k])
    {
      OtherIsNotInFlight(q, clock, i, k);
    }
    assert q.msgs[i].completed == 0;
    TurnIsNext(q', i);
  }

  lemma {:induction false} OtherIsNotInFlight(q: Recip, clock: nat, i: nat, k: nat)
    requires Queue.Inv(q, clock) && InFlight(q, i) && k < |q.msgs|
    ensures k != i ==> q.msgs[k].status != MQ_DELIVERING
    ensures k < i ==> !Asks(q.msgs[k])
    ensures q.msgs[i].completed == 0
  {
    assert StatusOk(q, i) && StatusOk(q, k);
    if q.msgs[k].status.MQ_DELIVERING? {
      OneInFlight(q, clock, i, k);
    }
  }

  /**
   A delivery that failed is repeated when its time has come and not before: nothing is handed out as long
   as it has not, the device is not heard and no message is added that brings the time forward; and the
   first call of msg_getMessage from then on hands out the same message, unless it expired.
   */
  lemma {:induction false} RetriedInTime(addr: Uint32, nsap: Nsap, start: nat, before: seq<Timed>, q: Recip, i: nat, now: nat, retryTimes: seq<nat>,
                      es: seq<Timed>, q': Recip, t: nat)
    requires Runs(NewRecip(addr, nsap, start), start, before, q) && InFlight(q, i) && retryTimes != []
    requires Runs(Respool(q, i, now, retryTimes), now, es, q')
    requires forall k :: 0 <= k < |es| ==> Early(es[k], Respool(q, i, now, retryTimes).nextAttempt) && es[k].now <= q.msgs[i].expiry
    requires t >= Respool(q, i, now, retryTimes).nextAttempt
    ensures q'.trace == q.trace
    ensures Apply(q', GetMessage, t).trace == q.trace + [Handed(q.msgs[i].number)]
  {
    var r := Respool(q, i, now, retryTimes);
    NewKeeps(addr, nsap, start);
    RunKeeps(NewRecip(addr, nsap, start), start, before, q);
    RespooledWaits(q, EndClock(start, before), i, now, retryTimes);
    NothingEarly(r, now, es, q', r.nextAttempt, q.msgs[i].number, q.msgs[i].expiry);
    var j := NextHasTurn(q'.msgs, q.msgs[i].number, q.msgs[i].expiry);
    assert Takes(q', t) && Turns(q', j);
    HandedExactly(q', GetMessage, t, j);
  }

  /**
   msg_updateMessageStatus refuses a completed message. Otherwise success completes the message and frees its
   queue; another status is stored, the queue is under way for one in delivery, free for one that waits, and
   as it was for one that is no status at all.
   */
  lemma {:induction false} UpdateExactly(q: Recip, i: nat, status: MsgStatus, now: nat)
    requires i < |q.msgs|
    ensures var (ok, q') := Update(q, i, status, now);
            && (ok <==> q.msgs[i].completed == 0)
            && (!ok ==> q' == q)
            && (ok ==>
                  && |q'.msgs| == |q.msgs| && (forall j :: 0 <= j < |q.msgs| && j != i ==> q'.msgs[j] == q.msgs[j])
                  && q'.msgs[i] == q.msgs[i].(status := status, completed := if status == MQ_SUCCEDED then now else 0)
                  && (status in {MQ_SUCCEDED, MQ_READY, MQ_FAILED} ==> q'.status == RQ_READY)
                  && (status == MQ_DELIVERING ==> q'.status == RQ_DELIVERING)
                  && (status.MQ_UNDEFINED? ==> q'.status == q.status)
                  && (status != MQ_SUCCEDED ==> q' == q.(msgs := q'.msgs, status := q'.status)))
  {
  }

  // ---------- all queues ----------

  /**
   msg_getMessage takes a message exactly when its own time has come and some queue has one to take: the
   first such queue, and in it the first message that waits. It asks again at once then, and in two
   seconds when there was none.
   */
  lemma {:induction false} GetMessageExactly(s: Store, now: nat, dump: bool, i: nat, j: nat)
    ensures var c := Queues.CleanQueue(s, now, dump);
            var (r, s') := Queues.GetMessage(s, now, dump);
            && (r.Some? <==> c.nextAttempt <= now && exists k :: 0 <= k < |c.recips| && Takes(c.recips[k], now))
            && (r.Some? ==> r.value < |c.recips| && Takes(c.recips[r.value], now) && forall k :: 0 <= k < r.value ==> !Takes(c.recips[k], now))
            && (r == Some(i) && Turns(c.recips[i], j) ==>
                  s' == Store(c.recips[..i] + [Under(c.recips[i], j, now)] + c.recips[i + 1..],
                              s.count, s.totalCount, s.failureCount, now, now, c.lastClean))
            && (r.None? ==> s' == if c.nextAttempt > now then c else c.(lastAttempt := now, nextAttempt := now + 2))
  {
    var c := Queues.CleanQueue(s, now, dump);
    var r := Choose(c.recips, now);
    forall k | 0 <= k < |c.recips| ensures Eligible(c.recips[k], now).Some? <==> Takes(c.recips[k], now) {
      EligibleExactly(c.recips[k], now);
    }
    if r == Some(i) && Turns(c.recips[i], j) {
      EligibleExactly(c.recips[i], now);
      TurnIsUnique(c.recips[i], j, Eligible(c.recips[i], now).value);
      assert c.recips[i := Under(c.recips[i], j, now)] == c.recips[..i] + [Under(c.recips[i], j, now)] + c.recips[i + 1..];
    }
  }

  /** What is to be started comes from the queues that have one to take, in their order, each with the message whose turn it is. */
  lemma {:induction false} ToStartFrom(recips: seq<Recip>, now: nat, k: nat) returns (i: nat, j: nat)
    requires k < |ToStart(recips, now)|
    ensures i < |recips| && Takes(recips[i], now) && Turns(recips[i], j)
    ensures ToStart(recips, now)[k] == Started(recips[i].addr, recips[i].msgs[j].number)
    ensures |ToStart(recips[..i], now)| == k
  {
    EligibleExactly(recips[0], now);
    if k == 0 && Takes(recips[0], now) {
      i, j := 0, Eligible(recips[0], now).value;
    } else {
      i, j := ToStartFrom(recips[1..], now, if Takes(recips[0], now) then k - 1 else k);
      i := i + 1;
      assert recips[..i][1..] == recips[1..][..i - 1] && recips[..i][0] == recips[0];
    }
  }

  /** And every such queue has its place among them. */
  lemma {:induction false} ToStartHas(recips: seq<Recip>, now: nat, i: nat, j: nat)
    requires i < |recips| && Takes(recips[i], now) && Turns(recips[i], j)
    ensures |ToStart(recips[..i], now)| < |ToStart(recips, now)|
    ensures ToStart(recips, now)[|ToStart(recips[..i], now)|] == Started(recips[i].addr, recips[i].msgs[j].number)
  {
    EligibleExactly(recips[i], now);
    if i == 0 {
      TurnIsUnique(recips[0], j, Eligible(recips[0], now).value);
    } else {
      ToStartHas(recips[1..], now, i - 1, j);
      assert recips[..i][1..] == recips[1..][..i - 1] && recips[..i][0] == recips[0];
    }
  }

  // ---------- after a pass ----------

  /** A message on its way that could not be prepared: it failed and is complete, and one failure more is counted. */
  function GivenUp(q: Recip, j: nat, now: nat): Recip
    requires j < |q.msgs|
  {
    var m := q.msgs[j];
    q.(msgs := q.msgs[..j] + [Msg(m.number, MQ_FAILED, now, now, m.expiry, m.failures)] + q.msgs[j + 1..],
       status := RQ_DELIVERING, lastAttempt := now, failureTotal := q.failureTotal + 1, count := q.count - 1,
       trace := q.trace + [Handed(m.number), Completed(m.number)])
  }

  lemma {:induction false} DeleteGivesUp(q: Recip, j: nat, now: nat)
    requires j < |q.msgs| && q.msgs[j].completed == 0
    ensures Delete(Under(q, j, now), j, now) == GivenUp(q, j, now)
  {
    var u := Under(q, j, now);
    assert u.msgs[j] == Msg(q.msgs[j].number, MQ_DELIVERING, 0, now, q.msgs[j].expiry, q.msgs[j].failures);
    assert Delete(u, j, now).msgs == GivenUp(q, j, now).msgs;
    assert Delete(u, j, now).trace == GivenUp(q, j, now).trace;
  }

  /** The queue after a pass in which `n` deliveries began, when it is the p-th of those that have a message to take. */
  function AfterPass(q: Recip, j: nat, p: nat, n: nat, now: nat): Recip
    requires j < |q.msgs|
  {
    if p < n then Under(q, j, now) else if p == n then GivenUp(q, j, now) else q
  }

  /** Queue k is the first that has a message to take, message j, and s1 is the store once it was taken. */
  ghost predicate Served(s: Store, now: nat, k: nat, j: nat, s1: Store) {
    && k < |s.recips| && Takes(s.recips[k], now) && Turns(s.recips[k], j) && (forall i :: 0 <= i < k ==> !Takes(s.recips[i], now))
    && s1.recips == s.recips[k := Under(s.recips[k], j, now)] && s1.nextAttempt == s1.lastAttempt == now
    && Cleaned(s1, now) && s1.nextAttempt <= now
    && ToStart(s.recips, now) == [Started(s.recips[k].addr, s.recips[k].msgs[j].number)] + ToStart(s1.recips, now)
  }

  lemma {:induction false} TakesFirst(s: Store, now: nat) returns (k: nat, j: nat, s1: Store)
    requires Cleaned(s, now) && s.nextAttempt <= now && ToStart(s.recips, now) != []
    ensures Queues.GetMessage(s, now, false) == (Some(k), s1) && Served(s, now, k, j, s1)
    ensures Eligible(s.recips[k], now) == Some(j)
  {
    GetMessageTakesFirst(s, now);
    var r := Choose(s.recips, now);
    k, s1 := r.value, Queues.GetMessage(s, now, false).1;
    EligibleExactly(s.recips[k], now);
    j := Eligible(s.recips[k], now).value;
    forall i | 0 <= i < k ensures !Takes(s.recips[i], now) {
      EligibleExactly(s.recips[i], now);
    }
  }

  /** How many queues before queue i have a message to take, once the first of them has been served. */
  lemma {:induction false} OneFewerBefore(recips: seq<Recip>, k: nat, q: Recip, i: nat, now: nat)
    requires k < |recips| && Takes(recips[k], now) && !Takes(q, now) && (forall x :: 0 <= x < k ==> !Takes(recips[x], now))
    requires i <= |recips|
    ensures |ToStart(recips[..i], now)| == |ToStart(recips[k := q][..i], now)| + if k < i then 1 else 0
    ensures i <= k ==> ToStart(recips[..i], now) == []
  {
    forall x | 0 <= x < |recips| ensures Eligible(recips[x], now).Some? <==> Takes(recips[x], now) {
      EligibleExactly(recips[x], now);
    }
    EligibleExactly(q, now);
    if k < i {
      assert recips[k := q][..i] == recips[..i][k := q];
      FirstToStart(recips[..i], k, q, now);
    } else {
      assert recips[k := q][..i] == recips[..i];
      NoneToStart(recips[..i], now);
    }
  }

  /** What becomes of queue i when `n` deliveries begin: those served have their message on its way, the next one has lost it. */
  ghost predicate LeftAs(recips: seq<Recip>, n: nat, recips': seq<Recip>, i: nat, j: nat, now: nat)
    requires i < |recips|
  {
    && |recips'| == |recips|
    && (!Takes(recips[i], now) ==> recips'[i] == recips[i])
    && (Takes(recips[i], now) && Turns(recips[i], j) ==>
          recips'[i] == AfterPass(recips[i], j, |ToStart(recips[..i], now)|, n, now))
  }

  /** A queue that was served is out of the pass. */
  lemma {:induction false} LeftAfterOne(recips: seq<Recip>, k: nat, jk: nat, n: nat, recips': seq<Recip>, i: nat, j: nat, now: nat)
    requires k < |recips| && i < |recips| && Takes(recips[k], now) && Turns(recips[k], jk)
    requires forall x :: 0 <= x < k ==> !Takes(recips[x], now)
    requires LeftAs(recips[k := Under(recips[k], jk, now)], n, recips', i, j, now)
    ensures LeftAs(recips, n + 1, recips', i, j, now)
  {
    OneFewerBefore(recips, k, Under(recips[k], jk, now), i, now);
    if Turns(recips[i], j) && i == k {
      TurnIsUnique(recips[i], j, jk);
    }
  }

  /** The pass ends with the first message that cannot be prepared. */
  lemma {:induction false} LeftGivenUp(recips: seq<Recip>, k: nat, jk: nat, i: nat, j: nat, now: nat)
    requires k < |recips| && i < |recips| && Takes(recips[k], now) && Turns(recips[k], jk)
    requires forall x :: 0 <= x < k ==> !Takes(recips[x], now)
    ensures LeftAs(recips, 0, recips[k := GivenUp(recips[k], jk, now)], i, j, now)
  {
    OneFewerBefore(recips, k, Under(recips[k], jk, now), i, now);
    if Turns(recips[i], j) && i == k {
      TurnIsUnique(recips[i], j, jk);
    }
    if k < i && Takes(recips[i], now) && Turns(recips[i], j) {
      assert |ToStart(recips[..i], now)| >= 1;
    }
  }

  lemma {:induction false} LeftAlone(s: Store, now: nat, prepares: set<Started>, i: nat, j: nat)
    requires Cleaned(s, now) && s.nextAttempt <= now && ToStart(s.recips, now) == [] && i < |s.recips|
    ensures Pass(s, now, prepares) == ([], s.(lastAttempt := now, nextAttempt := now + 2))
    ensures LeftAs(s.recips, 0, s.recips, i, j, now)
  {
    GetMessageTakesFirst(s, now);
    if Takes(s.recips[i], now) && Turns(s.recips[i], j) {
      ToStartHas(s.recips, now, i, j);
    }
  }

  /** One turn of the pass: the delivery begins, and the pass goes on, or the message is given up, and the pass ends. */
  lemma {:induction false} PassTurn(s: Store, now: nat, prepares: set<Started>, k: nat, j: nat, s1: Store)
    requires Cleaned(s, now) && s.nextAttempt <= now && Served(s, now, k, j, s1)
    requires Queues.GetMessage(s, now, false) == (Some(k), s1) && Eligible(s.recips[k], now) == Some(j)
    ensures var first := Started(s.recips[k].addr, s.recips[k].msgs[j].number);
            if first in prepares then Pass(s, now, prepares) == ([first] + Pass(s1, now, prepares).0, Pass(s1, now, prepares).1)
            else Pass(s, now, prepares) == ([], GiveUp(s1, k, j, now))
  {
  }

  lemma {:induction false} GivenUpIs(s: Store, now: nat, k: nat, j: nat, s1: Store)
    requires Queues.Inv(s, now) && Served(s, now, k, j, s1)
    requires Eligible(s.recips[k], now) == Some(j)
    ensures GiveUp(s1, k, j, now) == s1.(recips := s.recips[k := GivenUp(s.recips[k], j, now)])
  {
    PendingIsFirst(s.recips[k], now, j);
    DeleteGivesUp(s.recips[k], j, now);
    assert s.recips[k := Under(s.recips[k], j, now)][k := GivenUp(s.recips[k], j, now)] == s.recips[k := GivenUp(s.recips[k], j, now)];
  }

  /** The store as a pass in which these deliveries began leaves it. */
  ghost predicate PassedAs(s: Store, started: seq<Started>, s': Store, i: nat, j: nat, now: nat)
    requires i < |s.recips|
  {
    && LeftAs(s.recips, |started|, s'.recips, i, j, now) && s'.lastAttempt == now
    && s'.nextAttempt == if |started| == |ToStart(s.recips, now)| then now + 2 else now
  }

  lemma {:induction false} PassedOneMore(s: Store, k: nat, jk: nat, s1: Store, started: seq<Started>, s': Store, i: nat, j: nat, now: nat)
    requires Served(s, now, k, jk, s1) && i < |s.recips| && PassedAs(s1, started, s', i, j, now)
    ensures PassedAs(s, [ToStart(s.recips, now)[0]] + started, s', i, j, now)
  {
    LeftAfterOne(s.recips, k, jk, |started|, s'.recips, i, j, now);
  }

  /**
   What a pass leaves behind: of the queues that had a message to take, in their order, those whose delivery
   began have it on its way, the next one has lost its message for good, and all others are as they were.
   The pass looks again in two seconds when it has served them all.
   */
  lemma {:induction false} PassLeaves(s: Store, now: nat, prepares: set<Started>, i: nat, j: nat)
    requires Cleaned(s, now) && s.nextAttempt <= now && Queues.Inv(s, now) && i < |s.recips|
    ensures PassedAs(s, Pass(s, now, prepares).0, Pass(s, now, prepares).1, i, j, now)
    decreases |ToStart(s.recips, now)|
  {
    if ToStart(s.recips, now) == [] {
      LeftAlone(s, now, prepares, i, j);
    } else {
      var k, jk, s1 := TakesFirst(s, now);
      PassTurn(s, now, prepares, k, jk, s1);
      if ToStart(s.recips, now)[0] in prepares {
        GetMessageKeeps(s, now, false);
        PassLeaves(s1, now, prepares, i, j);
        PassedOneMore(s, k, jk, s1, Pass(s1, now, prepares).0, Pass(s1, now, prepares).1, i, j, now);
      } else {
        GivenUpIs(s, now, k, jk, s1);
        LeftGivenUp(s.recips, k, jk, i, j, now);
      }
    }
  }

  /** The scheduler cleans if it is time to, and makes its pass only when its own next attempt has come. */
  lemma {:induction false} TryDeliveryLeaves(s: Store, now: nat, dump: bool, prepares: set<Started>, i: nat, j: nat)
    requires Queues.Inv(s, now) && i < |s.recips|
    ensures var c := Queues.CleanQueue(s, now, dump);
            var (started, s') := Queues.TryDelivery(s, now, dump, prepares);
            && |c.recips| == |s.recips|
            && if c.nextAttempt > now then started == [] && s' == c else PassedAs(c, started, s', i, j, now)
  {
    CleanQueueKeeps(s, now, dump);
    var c := Queues.CleanQueue(s, now, dump);
    if c.nextAttempt <= now {
      PassLeaves(c, now, prepares, i, j);
    }
  }

  // ---------- a device is heard ----------

  /** Of all queues those of the device with something in them are due at once, and nothing else changes. */
  lemma {:induction false} DeliverNowExactly(s: Store, nsap: Nsap, now: nat)
    ensures var s' := Queues.DeliverNow(s, nsap, now);
            && s' == s.(recips := s'.recips) && |s'.recips| == |s.recips|
            && forall i :: 0 <= i < |s.recips| ==>
                 if s.recips[i].nsap == nsap && s.recips[i].count > 0
                 then s'.recips[i].nextAttempt == now && s'.recips[i] == s.recips[i].(nextAttempt := s'.recips[i].nextAttempt)
                 else s'.recips[i] == s.recips[i]
  {
  }

  /** When a device is heard, the next pass at that time starts the message whose turn it is from each of its ready queues. */
  lemma {:induction false} HeardIsServed(s: Store, nsap: Nsap, now: nat, prepares: set<Started>, i: nat, j: nat)
    requires i < |s.recips| && s.recips[i].nsap == nsap && s.recips[i].count > 0
    requires s.recips[i].status == RQ_READY && Turns(s.recips[i], j)
    requires Cleaned(s, now) && s.nextAttempt <= now
    requires forall x :: x in ToStart(Queues.DeliverNow(s, nsap, now).recips, now) ==> x in prepares
    ensures Started(s.recips[i].addr, s.recips[i].msgs[j].number) in Pass(Queues.DeliverNow(s, nsap, now), now, prepares).0
  {
    var s' := Queues.DeliverNow(s, nsap, now);
    DeliverNowExactly(s, nsap, now);
    assert Takes(s'.recips[i], now) && Turns(s'.recips[i], j);
    ToStartHas(s'.recips, now, i, j);
    PassStartsEach(s', now, prepares);
  }

  // ---------- cleaning ----------

  /** A message goes once it was completed more than 15 minutes ago, or has expired. */
  predicate Goes(m: Msg, now: nat) { (m.completed != 0 && now > m.completed + 900) || now > m.expiry }

  lemma {:induction false} KeptExactly(msgs: seq<Msg>, now: nat, m: Msg)
    ensures m in Kept(msgs, now) <==> m in msgs && !Goes(m, now)
  {
    if msgs != [] {
      KeptExactly(msgs[1..], now, m);
      assert msgs == [msgs[0]] + msgs[1..];
    }
  }

  /** The expired ones that were not completed long ago are reported, and no other. */
  lemma {:induction false} ReportsExactly(msgs: seq<Msg>, now: nat, number: nat)
    ensures number in Reports(msgs, now) <==>
            exists i :: 0 <= i < |msgs| && msgs[i].number == number && now > msgs[i].expiry
                        && !(msgs[i].completed != 0 && now > msgs[i].completed + 900)
  {
    if msgs != [] {
      var n := |msgs| - 1;
      ReportsExactly(msgs[..n], now, number);
      forall i | 0 <= i < n ensures msgs[..n][i] == msgs[i] { }
    }
  }

  /**
   Every queue is cleaned, unless that was done less than a minute ago and no dump was asked for: the messages
   that stay are those that do not go, and nothing else of the queue or the store changes but the books.
   */
  lemma {:induction false} CleanQueueExactly(s: Store, now: nat, dump: bool, i: nat, m: Msg)
    requires i < |s.recips|
    ensures var c := Queues.CleanQueue(s, now, dump);
            if now < s.lastClean + 60 && !dump then c == s
            else
              && c == s.(recips := c.recips, lastClean := now) && |c.recips| == |s.recips|
              && c.recips[i] == s.recips[i].(msgs := c.recips[i].msgs, expired := c.recips[i].expired)
              && (m in c.recips[i].msgs <==> m in s.recips[i].msgs && !Goes(m, now))
  {
    KeptExactly(s.recips[i].msgs, now, m);
  }

  /** What stays keeps its order, and no message stays twice. */
  lemma {:induction false} CleanKeepsOrder(s: Store, now: nat, dump: bool, i: nat, j: nat, k: nat)
    requires Queues.Inv(s, now) && i < |s.recips| && j < k < |Queues.CleanQueue(s, now, dump).recips[i].msgs|
    ensures var msgs := Queues.CleanQueue(s, now, dump).recips[i].msgs; msgs[j].number < msgs[k].number
  {
    CleanQueueKeeps(s, now, dump);
    assert Queue.Inv(Queues.CleanQueue(s, now, dump).recips[i], now);
  }
}
