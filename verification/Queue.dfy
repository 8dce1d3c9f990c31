/**
 The delivery queue of one recipient, as values: what msgstore.c and the respooling in deliver.c do
 to it, what every run of these operations keeps, and what follows from that.
 */
module Queue {
  import opened Common

  const EXPIRY: nat := 3600          // a message lives for an hour
  const KEEP_COMPLETED: nat := 900   // a completed one stays listed for a quarter of one
  const MIN_DELAY: nat := 180
  const MAX_DELAY: nat := 14400
  const DEFAULT_DELAY: nat := 600

  datatype MsgStatus = MQ_READY | MQ_DELIVERING | MQ_FAILED | MQ_SUCCEDED | MQ_UNDEFINED(code: Uint32)
  datatype QueueStatus = RQ_EMPTY | RQ_READY | RQ_DELIVERING | RQ_WAITING

  /** A queued message; `number` counts the messages of its recipient, `completed` is 0 or a time. */
  datatype Msg = Msg(
    number: nat,
    status: MsgStatus,
    completed: nat,
    lastAttempt: nat,
    expiry: nat,
    failures: nat)

  /** Handing a message out for delivery, and the end of its life in the queue. */
  datatype Trace = Handed(number: nat) | Completed(number: nat)

  /**
   A recipient queue. `added`, `expired` and `trace` keep the books of a run: messages ever added,
   uncompleted ones removed by expiry, and what was handed out and completed, in order.
   */
  datatype Recip = Recip(
    addr: Uint32,
    nsap: Nsap,
    status: QueueStatus,
    count: int,
    successTotal: nat,
    failureTotal: nat,
    failureCount: nat,
    lastAttempt: nat,
    nextAttempt: nat,
    msgs: seq<Msg>,
    added: nat,
    expired: int,
    trace: seq<Trace>)

  // ---------- the operations ----------

  function NewRecip(addr: Uint32, nsap: Nsap, now: nat): Recip {
    Recip(addr, nsap, RQ_EMPTY, 0, 0, 0, 0, 0, now, [], 0, 0, [])
  }

  /** DQ_addMessage. */
  function Add(q: Recip, now: nat): Recip {
    q.(msgs := q.msgs + [Msg(q.added, MQ_READY, 0, 0, now + EXPIRY, 0)],
       count := q.count + 1,
       added := q.added + 1,
       status := if q.status.RQ_EMPTY? then RQ_READY else q.status,
       nextAttempt := if q.nextAttempt == 0 || q.nextAttempt > now + 30 then now else q.nextAttempt)
  }

  predicate Pending(m: Msg) { m.status.MQ_READY? || m.status.MQ_FAILED? }

  /** The first message whose status asks for a delivery. */
  function FirstPending(msgs: seq<Msg>): (r: Option<nat>)
    ensures r.Some? ==> r.value < |msgs| && Pending(msgs[r.value])
    ensures r.Some? ==> forall i :: 0 <= i < r.value ==> !Pending(msgs[i])
    ensures r.None? ==> forall i :: 0 <= i < |msgs| ==> !Pending(msgs[i])
  {
    if msgs == [] then None
    else if Pending(msgs[0]) then Some(0)
    else match FirstPending(msgs[1..]) case None => None case Some(i) => Some(i + 1)
  }

  predicate Due(q: Recip, now: nat) {
    q.status.RQ_READY? && q.nextAttempt <= now
  }

  /** The message msg_getMessage takes from this queue, if it takes one. */
  function Eligible(q: Recip, now: nat): Option<nat> {
    if Due(q, now) then FirstPending(q.msgs) else None
  }

  /** msg_getMessage has chosen message i. */
  function HandOut(q: Recip, i: nat, now: nat): Recip
    requires i < |q.msgs|
  {
    q.(msgs := q.msgs[i := q.msgs[i].(status := MQ_DELIVERING, lastAttempt := now)],
       status := RQ_DELIVERING, lastAttempt := now,
       trace := q.trace + [Handed(q.msgs[i].number)])
  }

  /** msg_updateMessageStatus(MQ_SUCCEDED). */
  function Succeed(q: Recip, i: nat, now: nat): Recip
    requires i < |q.msgs|
  {
    q.(msgs := q.msgs[i := q.msgs[i].(status := MQ_SUCCEDED, completed := now)],
       successTotal := q.successTotal + 1, failureCount := 0, count := q.count - 1,
       lastAttempt := now, nextAttempt := now, status := RQ_READY,
       trace := q.trace + [Completed(q.msgs[i].number)])
  }

  /** msg_updateMessageStatus: whether the status was changed, and the queue after it. */
  function Update(q: Recip, i: nat, status: MsgStatus, now: nat): (bool, Recip)
    requires i < |q.msgs|
  {
    if q.msgs[i].completed != 0 then (false, q)
    else if status.MQ_SUCCEDED? then (true, Succeed(q, i, now))
    else
      (true, q.(msgs := q.msgs[i := q.msgs[i].(status := status)],
                status := match status
                          case MQ_UNDEFINED(_) => q.status
                          case MQ_DELIVERING => RQ_DELIVERING
                          case _ => RQ_READY))
  }

  /** The wait before the next attempt after a failed one. */
  function Delay(q: Recip, retryTimes: seq<nat>): (d: nat)
    requires retryTimes != []
    ensures MIN_DELAY <= d <= MAX_DELAY
  {
    var index := if |retryTimes| > q.failureCount then q.failureCount else |retryTimes| - 1;
    if MIN_DELAY <= retryTimes[index] <= MAX_DELAY then retryTimes[index] else DEFAULT_DELAY
  }

  /** deliveryRespool. */
  function Respool(q: Recip, i: nat, now: nat, retryTimes: seq<nat>): Recip
    requires i < |q.msgs| && retryTimes != []
  {
    q.(msgs := q.msgs[i := q.msgs[i].(status := MQ_FAILED, lastAttempt := now, failures := q.msgs[i].failures + 1)],
       lastAttempt := now, nextAttempt := now + Delay(q, retryTimes), status := RQ_READY)
  }

  /** msg_deleteMessage; the status of the queue stays as it is. */
  function Delete(q: Recip, i: nat, now: nat): Recip
    requires i < |q.msgs|
  {
    if q.msgs[i].completed != 0 then q
    else
      q.(msgs := q.msgs[i := q.msgs[i].(status := MQ_FAILED, completed := now)],
         failureTotal := q.failureTotal + 1, count := q.count - 1,
         trace := q.trace + [Completed(q.msgs[i].number)])
  }

  predicate OldEnough(m: Msg, now: nat) { m.completed != 0 && now > m.completed + KEEP_COMPLETED }

  /** What msg_cleanQueue decides for a message. */
  predicate Removable(m: Msg, now: nat) { OldEnough(m, now) || now > m.expiry }

  /** Removing a message this way also reports it as not delivered. */
  predicate ReportedOnRemoval(m: Msg, now: nat) { !OldEnough(m, now) && now > m.expiry }

  function Kept(msgs: seq<Msg>, now: nat): seq<Msg> {
    if msgs == [] then []
    else (if Removable(msgs[0], now) then [] else [msgs[0]]) + Kept(msgs[1..], now)
  }

  function Uncompleted(msgs: seq<Msg>): nat {
    if msgs == [] then 0
    else Uncompleted(msgs[..|msgs| - 1]) + if msgs[|msgs| - 1].completed == 0 then 1 else 0
  }

  /** msg_cleanQueue: what is not removable stays, in order. */
  function Clean(q: Recip, now: nat): Recip {
    var kept := Kept(q.msgs, now);
    q.(msgs := kept, expired := q.expired + Uncompleted(q.msgs) - Uncompleted(kept))
  }

  /** The messages reported as not delivered while a list is cleaned, in order. */
  function Reports(msgs: seq<Msg>, now: nat): seq<nat> {
    if msgs == [] then []
    else
      var n := |msgs| - 1;
      Reports(msgs[..n], now) + if ReportedOnRemoval(msgs[n], now) then [msgs[n].number] else []
  }

  lemma ReportsMore(msgs: seq<Msg>, k: nat, now: nat)
    requires k < |msgs|
    ensures Reports(msgs[..k + 1], now) ==
            Reports(msgs[..k], now) + if ReportedOnRemoval(msgs[k], now) then [msgs[k].number] else []
  {
    assert msgs[..k + 1][..k] == msgs[..k];
  }

  /** msg_deliverNow, for a queue of the NSAP. */
  function DeliverNow(q: Recip, now: nat): Recip {
    if q.count > 0 then q.(nextAttempt := now) else q
  }

  // ---------- what every run keeps ----------

  /** Messages are listed in the order they were added, and the first to be added expires first. */
  ghost predicate Ordered(q: Recip, clock: nat) {
    && (forall i :: 0 <= i < |q.msgs| ==> q.msgs[i].number < q.added && q.msgs[i].expiry <= clock + EXPIRY)
    && (forall i, j :: 0 <= i < j < |q.msgs| ==>
          q.msgs[i].number < q.msgs[j].number && q.msgs[i].expiry <= q.msgs[j].expiry)
  }

  /** Messages complete first in, first out. */
  ghost predicate Fifo(q: Recip, clock: nat) {
    && (forall i :: 0 <= i < |q.msgs| ==> q.msgs[i].completed <= clock)
    && (forall i, j :: 0 <= i < j < |q.msgs| && q.msgs[j].completed != 0 ==>
          0 < q.msgs[i].completed <= q.msgs[j].completed)
  }

  /** Completion, status and the status of the queue go together. */
  ghost predicate Statuses(q: Recip) {
    && !q.status.RQ_WAITING?
    && (q.status.RQ_EMPTY? ==> q.msgs == [])
    && (forall i :: 0 <= i < |q.msgs| ==> StatusOk(q, i))
  }

  ghost predicate StatusOk(q: Recip, i: nat)
    requires i < |q.msgs|
  {
    match q.msgs[i].status
    case MQ_UNDEFINED(_) => false
    case MQ_READY => q.msgs[i].completed == 0
    case MQ_SUCCEDED => q.msgs[i].completed != 0
    case MQ_FAILED => q.msgs[i].completed != 0 ==> Stuck(q)
    case MQ_DELIVERING =>
      && q.msgs[i].completed == 0 && q.status.RQ_DELIVERING?
      && (forall j :: 0 <= j < i ==> q.msgs[j].completed != 0)
  }

  /** Nothing is being delivered, yet the queue waits for the end of a delivery. */
  ghost predicate Stuck(q: Recip) {
    q.status.RQ_DELIVERING? && forall i :: 0 <= i < |q.msgs| ==> !q.msgs[i].status.MQ_DELIVERING?
  }

  /** The counters add up, and no failure is ever counted for the queue. */
  ghost predicate Books(q: Recip) {
    && q.count + q.successTotal + q.failureTotal == q.added
    && Uncompleted(q.msgs) == q.count - q.expired
    && q.failureCount == 0
  }

  /** One more than the number of the last message completed. */
  function Watermark(trace: seq<Trace>): nat {
    if trace == [] then 0
    else if trace[|trace| - 1].Completed? then trace[|trace| - 1].number + 1
    else Watermark(trace[..|trace| - 1])
  }

  /** After a completion only later messages are handed out or completed. */
  ghost predicate TraceOk(trace: seq<Trace>) {
    trace == [] ||
    (TraceOk(trace[..|trace| - 1]) && trace[|trace| - 1].number >= Watermark(trace[..|trace| - 1]))
  }

  /** What is completed in the trace comes before everything still to be completed. */
  ghost predicate TraceBehind(q: Recip) {
    && TraceOk(q.trace)
    && Watermark(q.trace) <= q.added
    && forall k :: 0 <= k < |q.msgs| && q.msgs[k].completed == 0 ==> Watermark(q.trace) <= q.msgs[k].number
  }

  ghost predicate Inv(q: Recip, clock: nat) {
    Ordered(q, clock) && Fifo(q, clock) && Statuses(q) && Books(q) && TraceBehind(q)
  }

  // ---------- each operation keeps it ----------

  lemma NewKeeps(addr: Uint32, nsap: Nsap, now: nat)
    ensures Inv(NewRecip(addr, nsap, now), now)
  {
  }

  lemma LaterKeeps(q: Recip, clock: nat, now: nat)
    requires Inv(q, clock) && clock <= now
    ensures Inv(q, now)
  {
  }

  lemma AddOrder(q: Recip, now: nat)
    requires Ordered(q, now) && Fifo(q, now)
    ensures Ordered(Add(q, now), now) && Fifo(Add(q, now), now)
  {
  }

  lemma AddStatuses(q: Recip, now: nat)
    requires Statuses(q)
    ensures Statuses(Add(q, now))
  {
    var q' := Add(q, now);
    forall i | 0 <= i < |q'.msgs| ensures StatusOk(q', i) {
      if i < |q.msgs| { assert StatusOk(q, i) && q'.msgs[i] == q.msgs[i]; }
    }
  }

  lemma AddBooks(q: Recip, now: nat)
    requires Books(q)
    ensures Books(Add(q, now))
  {
    var q' := Add(q, now);
    assert q'.msgs[..|q.msgs|] == q.msgs && q'.msgs[|q.msgs|].completed == 0;
  }

  lemma AddTrace(q: Recip, now: nat)
    requires TraceBehind(q)
    ensures TraceBehind(Add(q, now))
  {
  }

  lemma AddKeeps(q: Recip, now: nat)
    requires Inv(q, now)
    ensures Inv(Add(q, now), now)
  {
    AddOrder(q, now);
    AddStatuses(q, now);
    AddBooks(q, now);
    AddTrace(q, now);
  }

  /** Before the first pending message of a queue that is ready, everything is completed. */
  lemma PendingIsFirst(q: Recip, clock: nat, i: nat)
    requires Inv(q, clock) && q.status.RQ_READY? && FirstPending(q.msgs) == Some(i)
    ensures q.msgs[i].completed == 0 && forall j :: 0 <= j < i ==> q.msgs[j].completed != 0
  {
    assert StatusOk(q, i);
    forall j | 0 <= j < i ensures q.msgs[j].completed != 0 {
      assert StatusOk(q, j) && !Pending(q.msgs[j]);
    }
  }

  lemma {:induction false} SameUncompleted(a: seq<Msg>, b: seq<Msg>)
    requires |a| == |b| && forall i :: 0 <= i < |a| ==> (a[i].completed == 0 <==> b[i].completed == 0)
    ensures Uncompleted(a) == Uncompleted(b)
  {
    if a != [] {
      SameUncompleted(a[..|a| - 1], b[..|b| - 1]);
    }
  }

  /** Changes that leave numbers, expiry and completion alone keep the order and the list's share of the books. */
  lemma SameOrder(q: Recip, q': Recip, now: nat)
    requires Ordered(q, now) && Fifo(q, now) && q'.added == q.added && |q'.msgs| == |q.msgs|
    requires forall i :: 0 <= i < |q.msgs| ==> SameLife(q.msgs[i], q'.msgs[i])
    ensures Ordered(q', now) && Fifo(q', now) && Uncompleted(q'.msgs) == Uncompleted(q.msgs)
  {
    SameUncompleted(q.msgs, q'.msgs);
    forall i, j | 0 <= i < j < |q.msgs|
      ensures q'.msgs[i].number < q'.msgs[j].number && q'.msgs[i].expiry <= q'.msgs[j].expiry
      ensures q'.msgs[j].completed != 0 ==> 0 < q'.msgs[i].completed <= q'.msgs[j].completed
    {
      assert SameLife(q.msgs[i], q'.msgs[i]) && SameLife(q.msgs[j], q'.msgs[j]);
    }
  }

  predicate SameLife(m: Msg, m': Msg) {
    m'.number == m.number && m'.expiry == m.expiry && m'.completed == m.completed
  }

  lemma {:induction false} OneLessUncompleted(a: seq<Msg>, i: nat, m: Msg)
    requires i < |a| && a[i].completed == 0 && m.completed != 0
    ensures Uncompleted(a[i := m]) == Uncompleted(a) - 1
  {
    var n := |a| - 1;
    if i == n {
      assert a[i := m][..n] == a[..n];
    } else {
      assert a[i := m][..n] == a[..n][i := m];
      OneLessUncompleted(a[..n], i, m);
    }
  }

  lemma TraceGrows(trace: seq<Trace>, e: Trace)
    requires TraceOk(trace) && e.number >= Watermark(trace)
    ensures TraceOk(trace + [e])
    ensures Watermark(trace + [e]) == if e.Completed? then e.number + 1 else Watermark(trace)
  {
    assert (trace + [e])[..|trace|] == trace;
  }

  lemma HandOutKeeps(q: Recip, i: nat, now: nat)
    requires Inv(q, now) && Eligible(q, now) == Some(i)
    ensures Inv(HandOut(q, i, now), now)
  {
    PendingIsFirst(q, now, i);
    var q' := HandOut(q, i, now);
    SameOrder(q, q', now);
    HandOutTrace(q, i, now);
    HandOutStatuses(q, i, now);
  }

  lemma HandOutTrace(q: Recip, i: nat, now: nat)
    requires Inv(q, now) && Eligible(q, now) == Some(i)
    ensures TraceBehind(HandOut(q, i, now))
  {
    PendingIsFirst(q, now, i);
    TraceGrows(q.trace, Handed(q.msgs[i].number));
    var q' := HandOut(q, i, now);
    assert forall k :: 0 <= k < |q.msgs| ==> q'.msgs[k].completed == q.msgs[k].completed && q'.msgs[k].number == q.msgs[k].number;
  }

  lemma HandOutStatuses(q: Recip, i: nat, now: nat)
    requires Inv(q, now) && Eligible(q, now) == Some(i)
    ensures Statuses(HandOut(q, i, now))
  {
    PendingIsFirst(q, now, i);
    var q' := HandOut(q, i, now);
    forall j | 0 <= j < |q'.msgs| ensures StatusOk(q', j) {
      assert StatusOk(q, j);
    }
  }

  /** The message being delivered is the first that is not completed. */
  ghost predicate InFlight(q: Recip, i: nat) {
    i < |q.msgs| && q.msgs[i].status.MQ_DELIVERING?
  }

  lemma OneInFlight(q: Recip, clock: nat, i: nat, j: nat)
    requires Inv(q, clock) && InFlight(q, i)
    ensures InFlight(q, j) ==> i == j
    ensures q.status.RQ_DELIVERING? && !Stuck(q)
    ensures q.msgs[i].completed == 0 && forall k :: 0 <= k < i ==> q.msgs[k].completed != 0
    ensures forall k :: 0 <= k < |q.msgs| && k != i ==> (q.msgs[k].status.MQ_SUCCEDED? <==> k < i)
  {
    assert StatusOk(q, i);
    if InFlight(q, j) { assert StatusOk(q, j); }
    forall k | 0 <= k < |q.msgs| && k != i ensures q.msgs[k].status.MQ_SUCCEDED? <==> k < i {
      assert StatusOk(q, k);
      if k > i { assert q.msgs[k].completed == 0; }
    }
  }

  lemma SameTrace(q: Recip, q': Recip)
    requires TraceBehind(q) && q'.trace == q.trace && q'.added == q.added && |q'.msgs| == |q.msgs|
    requires forall i :: 0 <= i < |q.msgs| ==> SameLife(q.msgs[i], q'.msgs[i])
    ensures TraceBehind(q')
  {
    forall k | 0 <= k < |q'.msgs| && q'.msgs[k].completed == 0 ensures Watermark(q'.trace) <= q'.msgs[k].number {
      assert SameLife(q.msgs[k], q'.msgs[k]);
    }
  }

  lemma RespoolKeeps(q: Recip, i: nat, now: nat, retryTimes: seq<nat>)
    requires Inv(q, now) && InFlight(q, i) && retryTimes != []
    ensures Inv(Respool(q, i, now, retryTimes), now)
  {
    OneInFlight(q, now, i, i);
    var q' := Respool(q, i, now, retryTimes);
    SameOrder(q, q', now);
    SameTrace(q, q');
    forall j | 0 <= j < |q'.msgs| ensures StatusOk(q', j) {
      assert StatusOk(q, j);
      if j != i { OneInFlight(q, now, i, j); }
    }
  }

  /** What completing message i does to the order of completion and to the trace. */
  lemma CompleteKeepsOrder(q: Recip, q': Recip, i: nat, now: nat, status: MsgStatus)
    requires Inv(q, now) && InFlight(q, i) && now > 0
    requires q'.msgs == q.msgs[i := q.msgs[i].(status := status, completed := now)]
    requires q'.added == q.added && q'.trace == q.trace + [Completed(q.msgs[i].number)]
    ensures Ordered(q', now) && Fifo(q', now) && TraceBehind(q')
    ensures Uncompleted(q'.msgs) == Uncompleted(q.msgs) - 1
  {
    OneInFlight(q, now, i, i);
    OneLessUncompleted(q.msgs, i, q'.msgs[i]);
    TraceGrows(q.trace, Completed(q.msgs[i].number));
    assert Ordered(q', now);
    forall j, k | 0 <= j < k < |q'.msgs| && q'.msgs[k].completed != 0
      ensures 0 < q'.msgs[j].completed <= q'.msgs[k].completed
    {
      CompleteInOrder(q, i, now, j, k);
    }
  }

  /** Completing the message in flight now keeps completions in order. */
  lemma CompleteInOrder(q: Recip, i: nat, now: nat, j: nat, k: nat)
    requires Inv(q, now) && InFlight(q, i) && now > 0 && j < k < |q.msgs|
    requires k == i || q.msgs[k].completed != 0
    ensures j < i && k <= i && 0 < q.msgs[j].completed <= now
    ensures k < i ==> q.msgs[j].completed <= q.msgs[k].completed
  {
    OneInFlight(q, now, i, i);
  }

  lemma SucceedKeeps(q: Recip, i: nat, now: nat)
    requires Inv(q, now) && InFlight(q, i) && now > 0
    ensures Inv(Succeed(q, i, now), now)
  {
    OneInFlight(q, now, i, i);
    var q' := Succeed(q, i, now);
    CompleteKeepsOrder(q, q', i, now, MQ_SUCCEDED);
    forall j | 0 <= j < |q'.msgs| ensures StatusOk(q', j) {
      assert StatusOk(q, j);
      if j != i { OneInFlight(q, now, i, j); }
    }
  }

  lemma DeleteKeeps(q: Recip, i: nat, now: nat)
    requires Inv(q, now) && InFlight(q, i) && now > 0
    ensures Inv(Delete(q, i, now), now) && Stuck(Delete(q, i, now))
  {
    OneInFlight(q, now, i, i);
    var q' := Delete(q, i, now);
    CompleteKeepsOrder(q, q', i, now, MQ_FAILED);
    forall j | 0 <= j < |q'.msgs| ensures !q'.msgs[j].status.MQ_DELIVERING? {
      OneInFlight(q, now, i, j);
    }
    forall j | 0 <= j < |q'.msgs| ensures StatusOk(q', j) {
      assert StatusOk(q, j);
    }
  }

  lemma DeliverNowKeeps(q: Recip, now: nat)
    requires Inv(q, now)
    ensures Inv(DeliverNow(q, now), now)
  {
    var q' := DeliverNow(q, now);
    forall j | 0 <= j < |q'.msgs| ensures StatusOk(q', j) {
      assert StatusOk(q, j);
    }
  }

  // ---------- cleaning ----------

  /** How many messages at the front of the list are removable. */
  function RemovableFront(msgs: seq<Msg>, now: nat): (k: nat)
    ensures k <= |msgs|
    ensures forall i :: 0 <= i < k ==> Removable(msgs[i], now)
    ensures k < |msgs| ==> !Removable(msgs[k], now)
  {
    if msgs != [] && Removable(msgs[0], now) then 1 + RemovableFront(msgs[1..], now) else 0
  }

  /**
   What is removable is a prefix of the list: a message before a removable one is removable too,
   because messages are completed in order and expire in order.
   */
  lemma {:induction false} RemovableIsPrefix(q: Recip, clock: nat, now: nat, i: nat)
    requires Inv(q, clock) && i < |q.msgs|
    ensures Removable(q.msgs[i], now) <==> i < RemovableFront(q.msgs, now)
  {
    var k := RemovableFront(q.msgs, now);
    if k < i {
      var before, m := q.msgs[k], q.msgs[i];
      assert !Removable(before, now) && before.expiry <= m.expiry;
      assert m.completed != 0 ==> 0 < before.completed <= m.completed;
    }
  }

  lemma {:induction false} KeptIsSuffix(msgs: seq<Msg>, now: nat, k: nat)
    requires k <= |msgs| && forall i :: 0 <= i < |msgs| ==> (Removable(msgs[i], now) <==> i < k)
    ensures Kept(msgs, now) == msgs[k..]
  {
    if msgs != [] {
      KeptIsSuffix(msgs[1..], now, if k > 0 then k - 1 else 0);
      if k == 0 {
        assert [msgs[0]] + msgs[1..] == msgs[0..];
      }
    }
  }

  /** What is removable is a prefix of the list. */
  ghost predicate FrontGoes(msgs: seq<Msg>, now: nat) {
    |msgs| <= 1 || ((Removable(msgs[1], now) ==> Removable(msgs[0], now)) && FrontGoes(msgs[1..], now))
  }

  lemma {:induction false} FrontGoesEach(msgs: seq<Msg>, now: nat)
    requires FrontGoes(msgs, now)
    ensures forall i :: 0 <= i < |msgs| ==> (Removable(msgs[i], now) <==> i < RemovableFront(msgs, now))
  {
    if |msgs| > 1 {
      FrontGoesEach(msgs[1..], now);
      forall i | 0 <= i < |msgs| ensures Removable(msgs[i], now) <==> i < RemovableFront(msgs, now) {
        if i > 0 { assert msgs[i] == msgs[1..][i - 1] && msgs[1] == msgs[1..][0]; }
      }
    }
  }

  lemma {:induction false} EachFrontGoes(msgs: seq<Msg>, now: nat, k: nat)
    requires forall i :: 0 <= i < |msgs| ==> (Removable(msgs[i], now) <==> i < k)
    ensures FrontGoes(msgs, now)
  {
    if |msgs| > 1 {
      EachFrontGoes(msgs[1..], now, if k > 0 then k - 1 else 0);
    }
  }

  lemma {:induction false} InvFrontGoes(q: Recip, clock: nat, now: nat)
    requires Inv(q, clock)
    ensures FrontGoes(q.msgs, now)
  {
    forall i | 0 <= i < |q.msgs| ensures Removable(q.msgs[i], now) <==> i < RemovableFront(q.msgs, now) {
      RemovableIsPrefix(q, clock, now, i);
    }
    EachFrontGoes(q.msgs, now, RemovableFront(q.msgs, now));
  }

  /** Cleaning removes exactly the removable prefix. */
  lemma CleanTakesFront(q: Recip, now: nat)
    requires FrontGoes(q.msgs, now)
    ensures var rest := q.msgs[RemovableFront(q.msgs, now)..];
            Clean(q, now) == q.(msgs := rest, expired := q.expired + Uncompleted(q.msgs) - Uncompleted(rest))
  {
    FrontGoesEach(q.msgs, now);
    KeptIsSuffix(q.msgs, now, RemovableFront(q.msgs, now));
  }

  /** The same, with the number of messages that go and the count of those expired named. */
  lemma CleanPlan(q: Recip, now: nat) returns (q': Recip, f: nat, lost: int)
    requires FrontGoes(q.msgs, now)
    ensures f <= |q.msgs| && forall i :: 0 <= i < |q.msgs| ==> (Removable(q.msgs[i], now) <==> i < f)
    ensures q' == Clean(q, now) && q' == q.(msgs := q.msgs[f..], expired := lost)
  {
    f := RemovableFront(q.msgs, now);
    FrontGoesEach(q.msgs, now);
    CleanTakesFront(q, now);
    q' := Clean(q, now);
    lost := q'.expired;
  }

  lemma CleanIsSuffix(q: Recip, clock: nat, now: nat)
    requires Inv(q, clock)
    ensures Kept(q.msgs, now) == q.msgs[RemovableFront(q.msgs, now)..]
  {
    InvFrontGoes(q, clock, now);
    CleanTakesFront(q, now);
  }

  lemma SuffixKeeps(q: Recip, now: nat, k: nat, lost: int)
    requires Inv(q, now) && k <= |q.msgs|
    ensures var q' := q.(msgs := q.msgs[k..], expired := lost);
            Ordered(q', now) && Fifo(q', now) && Statuses(q') && TraceBehind(q')
  {
    var q' := q.(msgs := q.msgs[k..], expired := lost);
    assert Ordered(q', now) && Fifo(q', now) && TraceBehind(q');
    forall i | 0 <= i < |q'.msgs| ensures StatusOk(q', i) {
      assert StatusOk(q, i + k) && q'.msgs[i] == q.msgs[i + k];
    }
  }

  lemma CleanKeeps(q: Recip, now: nat)
    requires Inv(q, now)
    ensures Inv(Clean(q, now), now)
  {
    CleanIsSuffix(q, now, now);
    SuffixKeeps(q, now, RemovableFront(q.msgs, now), Clean(q, now).expired);
  }

  // ---------- runs ----------

  /**
   What can happen to a queue. Success, respooling and deletion are the ends of the delivery in
   flight; they can only come while its message is still listed.
   */
  datatype QueueOp =
    | AddMessage
    | GetMessage
    | DeliverySucceeds
    | DeliveryRespools(retryTimes: seq<nat>)
    | DeliveryDeletes
    | CleanQueue
    | DeliverNowRequest

  predicate Possible(q: Recip, op: QueueOp) {
    && (op.DeliverySucceeds? || op.DeliveryRespools? || op.DeliveryDeletes? ==>
          exists i: nat :: i < |q.msgs| && q.msgs[i].status.MQ_DELIVERING?)
    && (op.DeliveryRespools? ==> op.retryTimes != [])
  }

  /** The position of the message being delivered. */
  function Current(msgs: seq<Msg>): (i: nat)
    ensures (exists j :: 0 <= j < |msgs| && msgs[j].status.MQ_DELIVERING?) ==>
              i < |msgs| && msgs[i].status.MQ_DELIVERING?
  {
    if msgs == [] || msgs[0].status.MQ_DELIVERING? then 0 else 1 + Current(msgs[1..])
  }

  function Apply(q: Recip, op: QueueOp, now: nat): Recip
    requires Possible(q, op)
  {
    match op
    case AddMessage => Add(q, now)
    case GetMessage => (match Eligible(q, now) case None => q case Some(i) => HandOut(q, i, now))
    case DeliverySucceeds => Succeed(q, Current(q.msgs), now)
    case DeliveryRespools(retryTimes) => Respool(q, Current(q.msgs), now, retryTimes)
    case DeliveryDeletes => Delete(q, Current(q.msgs), now)
    case CleanQueue => Clean(q, now)
    case DeliverNowRequest => DeliverNow(q, now)
  }

  lemma ApplyKeeps(q: Recip, clock: nat, op: QueueOp, now: nat)
    requires Inv(q, clock) && clock <= now && now > 0 && Possible(q, op)
    ensures Inv(Apply(q, op, now), now)
  {
    LaterKeeps(q, clock, now);
    match op
    case AddMessage => AddKeeps(q, now);
    case GetMessage => if Eligible(q, now).Some? { HandOutKeeps(q, Eligible(q, now).value, now); }
    case DeliverySucceeds => SucceedKeeps(q, Current(q.msgs), now);
    case DeliveryRespools(retryTimes) => RespoolKeeps(q, Current(q.msgs), now, retryTimes);
    case DeliveryDeletes => DeleteKeeps(q, Current(q.msgs), now);
    case CleanQueue => CleanKeeps(q, now);
    case DeliverNowRequest => DeliverNowKeeps(q, now);
  }

  datatype Timed = Timed(op: QueueOp, now: nat)

  /** `q'` is reached from `q` at `clock` by some run, with time going on. */
  ghost predicate Runs(q: Recip, clock: nat, es: seq<Timed>, q': Recip)
    decreases |es|
  {
    if es == [] then q' == q
    else
      && clock <= es[0].now && es[0].now > 0 && Possible(q, es[0].op)
      && Runs(Apply(q, es[0].op, es[0].now), es[0].now, es[1..], q')
  }

  function EndClock(clock: nat, es: seq<Timed>): nat {
    if es == [] then clock else es[|es| - 1].now
  }

  lemma {:induction false} RunKeeps(q: Recip, clock: nat, es: seq<Timed>, q': Recip)
    requires Inv(q, clock) && Runs(q, clock, es, q')
    ensures Inv(q', EndClock(clock, es))
    decreases |es|
  {
    if es != [] {
      ApplyKeeps(q, clock, es[0].op, es[0].now);
      RunKeeps(Apply(q, es[0].op, es[0].now), es[0].now, es[1..], q');
    }
  }

  /** In every run of a new queue: what was completed is never handed out again, nor anything added before it. */
  lemma NeverHandedOutAgain(addr: Uint32, nsap: Nsap, start: nat, es: seq<Timed>, q: Recip, i: nat, j: nat)
    requires Runs(NewRecip(addr, nsap, start), start, es, q)
    requires i < j < |q.trace| && q.trace[i].Completed?
    ensures q.trace[i].number < q.trace[j].number
  {
    NewKeeps(addr, nsap, start);
    RunKeeps(NewRecip(addr, nsap, start), start, es, q);
    AfterCompletion(q.trace, i, j);
  }

  lemma {:induction false} AfterCompletion(trace: seq<Trace>, i: nat, j: nat)
    requires TraceOk(trace) && i < j < |trace| && trace[i].Completed?
    ensures trace[i].number < trace[j].number
  {
    var n := |trace| - 1;
    if j == n {
      WatermarkAbove(trace[..n], i);
    } else {
      AfterCompletion(trace[..n], i, j);
    }
  }

  lemma {:induction false} WatermarkAbove(trace: seq<Trace>, i: nat)
    requires TraceOk(trace) && i < |trace| && trace[i].Completed?
    ensures Watermark(trace) > trace[i].number
  {
    var n := |trace| - 1;
    if i < n {
      WatermarkAbove(trace[..n], i);
    }
  }

  /** In every run at most one message of a recipient is being delivered, and then its queue says so. */
  lemma AtMostOneInFlight(addr: Uint32, nsap: Nsap, start: nat, es: seq<Timed>, q: Recip, i: nat, j: nat)
    requires Runs(NewRecip(addr, nsap, start), start, es, q)
    requires InFlight(q, i)
    ensures q.status.RQ_DELIVERING? && (InFlight(q, j) ==> i == j)
  {
    NewKeeps(addr, nsap, start);
    RunKeeps(NewRecip(addr, nsap, start), start, es, q);
    OneInFlight(q, EndClock(start, es), i, j);
  }

  /** In every run the counters account for every message ever added. */
  lemma BooksBalance(addr: Uint32, nsap: Nsap, start: nat, es: seq<Timed>, q: Recip)
    requires Runs(NewRecip(addr, nsap, start), start, es, q)
    ensures q.count + q.successTotal + q.failureTotal == q.added
    ensures Uncompleted(q.msgs) == q.count - q.expired
  {
    NewKeeps(addr, nsap, start);
    RunKeeps(NewRecip(addr, nsap, start), start, es, q);
  }

  /**
   In every run every respooled message waits the first configured time, or DEFAULT_DELAY when that
   is out of range: the later retry times are never used, as the queue's failures are never counted.
   */
  lemma RespoolUsesFirstRetryTime(addr: Uint32, nsap: Nsap, start: nat, es: seq<Timed>, q: Recip, i: nat, now: nat, retryTimes: seq<nat>)
    requires Runs(NewRecip(addr, nsap, start), start, es, q)
    requires InFlight(q, i) && retryTimes != []
    ensures var q' := Respool(q, i, now, retryTimes);
            && q'.status.RQ_READY?
            && now + MIN_DELAY <= q'.nextAttempt <= now + MAX_DELAY
            && q'.nextAttempt == now + if MIN_DELAY <= retryTimes[0] <= MAX_DELAY then retryTimes[0] else DEFAULT_DELAY
  {
    NewKeeps(addr, nsap, start);
    RunKeeps(NewRecip(addr, nsap, start), start, es, q);
  }

  lemma {:induction false} NoneDeliveringKept(msgs: seq<Msg>, now: nat)
    requires forall i :: 0 <= i < |msgs| ==> !msgs[i].status.MQ_DELIVERING?
    ensures forall i :: 0 <= i < |Kept(msgs, now)| ==> !Kept(msgs, now)[i].status.MQ_DELIVERING?
  {
    if msgs != [] {
      NoneDeliveringKept(msgs[1..], now);
    }
  }

  lemma StuckStays(q: Recip, op: QueueOp, now: nat)
    requires Stuck(q) && Possible(q, op)
    ensures Stuck(Apply(q, op, now)) && Apply(q, op, now).trace == q.trace
  {
    if op.CleanQueue? {
      NoneDeliveringKept(q.msgs, now);
    }
  }

  /** Once a delivery is deleted, its recipient never gets another message. */
  lemma {:induction false} StuckForever(q: Recip, clock: nat, es: seq<Timed>, q': Recip)
    requires Stuck(q) && Runs(q, clock, es, q')
    ensures Stuck(q') && q'.trace == q.trace
    decreases |es|
  {
    if es != [] {
      var e := es[0];
      StuckStays(q, e.op, e.now);
      StuckForever(Apply(q, e.op, e.now), e.now, es[1..], q');
    }
  }

  /** Nothing is handed out or completed after the first events of the run, and the queue is stuck at its end. */
  ghost predicate EndsWith(q: Recip, clock: nat, first: seq<Timed>, q': Recip) {
    exists mid :: Runs(q, clock, first, mid) && Stuck(q') && q'.trace == mid.trace
  }

  /** In every run of a new queue: after the deletion of a delivery nothing is handed out or completed any more. */
  lemma DeletionIsTheEnd(addr: Uint32, nsap: Nsap, start: nat, es: seq<Timed>, k: nat, q: Recip)
    requires Runs(NewRecip(addr, nsap, start), start, es, q)
    requires k < |es| && es[k].op.DeliveryDeletes?
    ensures EndsWith(NewRecip(addr, nsap, start), start, es[..k + 1], q)
  {
    NewKeeps(addr, nsap, start);
    StuckAfter(NewRecip(addr, nsap, start), start, es, k, q);
  }

  lemma {:induction false} StuckAfter(q: Recip, clock: nat, es: seq<Timed>, k: nat, q': Recip)
    requires Inv(q, clock) && Runs(q, clock, es, q') && k < |es| && es[k].op.DeliveryDeletes?
    ensures EndsWith(q, clock, es[..k + 1], q')
    decreases k
  {
    if k == 0 {
      StuckAfterFirst(q, clock, es, q');
    } else {
      var e, rest := es[0], es[1..];
      assert rest[k - 1] == es[k] && es[..k + 1] == [e] + rest[..k];
      NextKeeps(q, clock, es, q');
      StuckAfter(Apply(q, e.op, e.now), e.now, rest, k - 1, q');
      EndsWithCons(q, clock, e, rest[..k], q');
    }
  }

  /** The first event of a run, and the run of the others. */
  lemma NextKeeps(q: Recip, clock: nat, es: seq<Timed>, q': Recip)
    requires Inv(q, clock) && Runs(q, clock, es, q') && es != []
    ensures var e := es[0];
            && clock <= e.now && e.now > 0 && Possible(q, e.op)
            && Inv(Apply(q, e.op, e.now), e.now) && Runs(Apply(q, e.op, e.now), e.now, es[1..], q')
  {
    ApplyKeeps(q, clock, es[0].op, es[0].now);
  }

  lemma {:induction false} EndsWithCons(q: Recip, clock: nat, e: Timed, first: seq<Timed>, q': Recip)
    requires clock <= e.now && e.now > 0 && Possible(q, e.op) && EndsWith(Apply(q, e.op, e.now), e.now, first, q')
    ensures EndsWith(q, clock, [e] + first, q')
  {
    var mid :| Runs(Apply(q, e.op, e.now), e.now, first, mid) && Stuck(q') && q'.trace == mid.trace;
    assert ([e] + first)[1..] == first;
    assert Runs(q, clock, [e] + first, mid);
  }

  lemma {:induction false} StuckAfterFirst(q: Recip, clock: nat, es: seq<Timed>, q': Recip)
    requires Inv(q, clock) && Runs(q, clock, es, q') && es != [] && es[0].op.DeliveryDeletes?
    ensures EndsWith(q, clock, es[..1], q')
  {
    var e := es[0];
    var next := Apply(q, e.op, e.now);
    LaterKeeps(q, clock, e.now);
    DeleteKeeps(q, Current(q.msgs), e.now);
    StuckForever(next, e.now, es[1..], q');
    assert Runs(next, e.now, [], next);
    assert EndsWith(next, e.now, [], q');
    EndsWithCons(q, clock, e, [], q');
    assert es[..1] == [e] + [];
  }

  /** Some message was handed out between the two. */
  ghost predicate HandsOut(q: Recip, q': Recip) {
    exists i :: |q.trace| <= i < |q'.trace| && q'.trace[i].Handed?
  }

  /** A queue that is free hands out a message once one is added and its time has come. */
  lemma FreeHandsOut(q: Recip, clock: nat) returns (es: seq<Timed>, q': Recip)
    requires Inv(q, clock) && !q.status.RQ_DELIVERING?
    ensures Runs(q, clock, es, q') && HandsOut(q, q')
  {
    var t := clock + 1;
    var q1 := Add(q, t);
    var t2 := if q1.nextAttempt > t then q1.nextAttempt else t;
    assert Pending(q1.msgs[|q.msgs|]);
    assert Eligible(q1, t2) == FirstPending(q1.msgs) && FirstPending(q1.msgs).Some?;
    q' := HandOut(q1, Eligible(q1, t2).value, t2);
    var e1, e2 := Timed(AddMessage, t), Timed(GetMessage, t2);
    es := [e1, e2];
    assert es[1..] == [e2] && [e2][1..] == [];
    assert Runs(q', t2, [], q');
    assert Runs(q1, t, [e2], q');
    assert q'.trace[|q.trace|].Handed?;
  }

  /** A queue whose delivery is under way can see it succeed, and is free then. */
  lemma UnderWayHandsOut(q: Recip, clock: nat) returns (es: seq<Timed>, q': Recip)
    requires Inv(q, clock) && q.status.RQ_DELIVERING? && !Stuck(q)
    ensures Runs(q, clock, es, q') && HandsOut(q, q')
  {
    var t := clock + 1;
    var e := Timed(DeliverySucceeds, t);
    assert exists i: nat :: i < |q.msgs| && q.msgs[i].status.MQ_DELIVERING?;
    var q1 := Apply(q, e.op, t);
    ApplyKeeps(q, clock, e.op, t);
    var rest;
    rest, q' := FreeHandsOut(q1, t);
    es := [e] + rest;
    assert es[1..] == rest;
    var i :| |q1.trace| <= i < |q'.trace| && q'.trace[i].Handed?;
    assert |q.trace| <= i;
  }

  /** No run of the queue hands out a message. */
  ghost predicate Silent(q: Recip, clock: nat) {
    forall es: seq<Timed>, q' :: Runs(q, clock, es, q') ==> !HandsOut(q, q')
  }

  /** A queue is stuck exactly when no run of it ever hands out a message again. */
  lemma {:induction false} StuckExactly(q: Recip, clock: nat)
    requires Inv(q, clock)
    ensures Stuck(q) <==> Silent(q, clock)
  {
    if Stuck(q) {
      forall es, q' | Runs(q, clock, es, q') ensures !HandsOut(q, q') {
        StuckForever(q, clock, es, q');
      }
    } else if q.status.RQ_DELIVERING? {
      var es, q' := UnderWayHandsOut(q, clock);
      assert !Silent(q, clock);
    } else {
      var es, q' := FreeHandsOut(q, clock);
      assert !Silent(q, clock);
    }
  }

  /** A removal reports a delivered message as not delivered exactly when it expired within 15 minutes of its delivery. */
  lemma DeliveredYetReported(q: Recip, clock: nat, i: nat, now: nat)
    requires Inv(q, clock) && i < |q.msgs| && q.msgs[i].status.MQ_SUCCEDED?
    ensures Removable(q.msgs[i], now) && ReportedOnRemoval(q.msgs[i], now) <==>
            q.msgs[i].expiry < now <= q.msgs[i].completed + KEEP_COMPLETED
  {
    assert StatusOk(q, i);
  }

  /** Such a run: delivered after 59 minutes, cleaned after 61. */
  lemma DeliveredYetReportedRun(addr: Uint32, nsap: Nsap)
    ensures var es := [Timed(AddMessage, 100), Timed(GetMessage, 3640), Timed(DeliverySucceeds, 3640)];
            exists q :: Runs(NewRecip(addr, nsap, 100), 100, es, q)
                        && |q.msgs| == 1 && q.msgs[0].status.MQ_SUCCEDED? && ReportedOnRemoval(q.msgs[0], 3760)
  {
    var q0 := NewRecip(addr, nsap, 100);
    var q1 := Apply(q0, AddMessage, 100);
    assert q1.msgs == [Msg(0, MQ_READY, 0, 0, 3700, 0)];
    assert FirstPending(q1.msgs) == Some(0);
    var q2 := Apply(q1, GetMessage, 3640);
    assert q2.msgs == [Msg(0, MQ_DELIVERING, 0, 3640, 3700, 0)];
    assert Current(q2.msgs) == 0 && q2.msgs[0].status.MQ_DELIVERING?;
    var q3 := Apply(q2, DeliverySucceeds, 3640);
    var e2, e3 := Timed(GetMessage, 3640), Timed(DeliverySucceeds, 3640);
    var es := [Timed(AddMessage, 100), e2, e3];
    assert es[1..] == [e2, e3] && [e2, e3][1..] == [e3] && [e3][1..] == [];
    assert Runs(q3, 3640, [], q3);
    assert Runs(q2, 3640, [e3], q3);
    assert Runs(q1, 100, [e2, e3], q3);
    assert Runs(q0, 100, es, q3);
  }
}
