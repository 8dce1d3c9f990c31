/**
 The message store as msgstore.c keeps it: per recipient a list of messages linked by `next`
 pointers, whose `prev` pointers nothing ever sets, and counters and times updated in place.
 Every operation is proved to do what Queue says.
 */
module MsgStore {
  import opened Common
  import opened Queue

  class ControlData {
    var status: MsgStatus
    var failureCount: nat
    var completed: nat
    var lastAttempt: nat
    var expiryTime: nat
    var next: ControlData?
    var prev: ControlData?
    const pRecipQueue: RecipQueue
    /** Which message of its recipient this is. */
    const number: nat

    constructor (queue: RecipQueue, now: nat, number: nat)
      ensures View() == Msg(number, MQ_READY, 0, 0, now + EXPIRY, 0)
      ensures next == null && prev == null && pRecipQueue == queue
    {
      status, failureCount, completed, lastAttempt := MQ_READY, 0, 0, 0;
      expiryTime, next, prev := now + 3600, null, null;
      pRecipQueue, this.number := queue, number;
    }

    ghost function View(): Msg
      reads this
    {
      Msg(number, status, completed, lastAttempt, expiryTime, failureCount)
    }
  }

  /** What a list of messages holds. */
  ghost predicate Holds(ms: seq<ControlData>, items: seq<Msg>)
    reads ms
  {
    |items| == |ms| && forall i :: 0 <= i < |ms| ==> ms[i].View() == items[i]
  }

  /** A queue changed as DQ_addMessage changes the fields is the queue with the message added. */
  lemma AddIs(q: Recip, q': Recip, now: nat)
    requires q'.addr == q.addr && q'.nsap == q.nsap && q'.count == q.count + 1 && q'.added == q.added + 1
    requires q'.successTotal == q.successTotal && q'.failureTotal == q.failureTotal
    requires q'.failureCount == q.failureCount && q'.lastAttempt == q.lastAttempt
    requires q'.expired == q.expired && q'.trace == q.trace
    requires q'.status == if q.status.RQ_EMPTY? then RQ_READY else q.status
    requires q'.nextAttempt == if q.nextAttempt == 0 || q.nextAttempt > now + 30 then now else q.nextAttempt
    requires q'.msgs == q.msgs + [Msg(q.added, MQ_READY, 0, 0, now + EXPIRY, 0)]
    ensures q' == Add(q, now)
  {
  }

  class RecipQueue {
    const recipient: Uint32
    const nsap: Nsap                   // of the device profile
    var status: QueueStatus
    var count: int
    var successTotal: nat
    var failureTotal: nat
    var failureCount: nat
    var lastAttempt: nat
    var nextAttempt: nat
    var pMsg: ControlData?
    ghost var msgs: seq<ControlData>   // the list that starts at pMsg
    ghost var items: seq<Msg>          // what they hold
    var added: nat
    ghost var expired: int
    ghost var trace: seq<Trace>

    constructor (addr: Uint32, nsap: Nsap, now: nat)
      ensures Linked() && View() == NewRecip(addr, nsap, now) && msgs == []
    {
      recipient, this.nsap, status := addr, nsap, RQ_EMPTY;
      count, successTotal, failureTotal, failureCount := 0, 0, 0, 0;
      lastAttempt, nextAttempt, pMsg := 0, now, null;
      msgs, items, added, expired, trace := [], [], 0, 0, [];
    }

    ghost function View(): Recip
      reads this
    {
      Recip(recipient, nsap, status, count, successTotal, failureTotal, failureCount, lastAttempt, nextAttempt,
            items, added, expired, trace)
    }

    /** The list: linked forwards, no backward pointer set, all messages this queue's own. */
    ghost predicate Linked()
      reads this, msgs
    {
      Chain(pMsg, msgs) && Owned(this, msgs) && Holds(msgs, items)
    }

    /** DQ_addMessage. */
    method Add(now: nat) returns (m: ControlData)
      requires Linked()
      modifies this, msgs
      ensures Linked() && View() == Queue.Add(old(View()), now)
      ensures fresh(m) && msgs == old(msgs) + [m]
    {
      ghost var q := View();
      m := new ControlData(this, now, added);
      Append(m);
      Counted(now);
      AddIs(q, View(), now);
    }

    /** The new message at the end of the list: walk there and hang it on. */
    method Append(m: ControlData)
      requires Linked() && m !in msgs && m.next == null && m.prev == null && m.pRecipQueue == this
      modifies this`pMsg, this`msgs, this`items, msgs`next
      ensures Linked() && msgs == old(msgs) + [m] && items == old(items) + [m.View()]
    {
      if pMsg == null {
        pMsg := m;
      } else {
        var p: ControlData := pMsg;
        ghost var k := 0;
        while p.next != null
          invariant 0 <= k < |msgs| && p == msgs[k]
          decreases |msgs| - k
        {
          assert PointsOn(msgs, k);
          p := p.next;
          k := k + 1;
        }
        assert PointsOn(msgs, k);
        p.next := m;
      }
      ghost var ms := msgs;
      msgs, items := msgs + [m], items + [m.View()];
      forall i | 0 <= i < |msgs| ensures PointsOn(msgs, i) {
        if i < |ms| - 1 { assert old(PointsOn(ms, i)); }
      }
    }

    /** The rest of DQ_addMessage: the counters and times of the queue. */
    method Counted(now: nat)
      modifies this`count, this`added, this`status, this`nextAttempt
      ensures count == old(count) + 1 && added == old(added) + 1
      ensures status == if old(status).RQ_EMPTY? then RQ_READY else old(status)
      ensures nextAttempt == if old(nextAttempt) == 0 || old(nextAttempt) > now + 30 then now else old(nextAttempt)
    {
      count := count + 1;
      added := added + 1;
      match status {
        case RQ_EMPTY => status := RQ_READY;
        case _ =>
      }
      if nextAttempt == 0 || nextAttempt > now + 30 {
        nextAttempt := now;
      }
    }

    /** The first message whose status asks for a delivery; null when there is none. */
    method FirstPendingMessage() returns (pMsg: ControlData?)
      requires Linked()
      ensures match FirstPending(items)
              case None => pMsg == null
              case Some(k) => pMsg == msgs[k]
    {
      pMsg := this.pMsg;
      ghost var i := 0;
      while pMsg != null
        invariant 0 <= i <= |msgs| && pMsg == At(msgs, i)
        invariant forall k :: 0 <= k < i ==> !Pending(items[k])
        decreases |msgs| - i
      {
        assert PointsOn(msgs, i) && msgs[i].View() == items[i];
        if pMsg.status.MQ_READY? || pMsg.status.MQ_FAILED? {
          break;
        }
        pMsg := pMsg.next;
        i := i + 1;
      }
      FirstPendingIs(items, i);
    }

    /** Set the fields of a message of the list. */
    method SetMessage(pMsg: ControlData, ghost i: nat, status: MsgStatus, completed: nat, lastAttempt: nat, failureCount: nat)
      requires Linked() && i < |msgs| && msgs[i] == pMsg
      modifies this`items, pMsg`status, pMsg`completed, pMsg`lastAttempt, pMsg`failureCount
      ensures Linked()
      ensures items == old(items)[i := Msg(pMsg.number, status, completed, lastAttempt, old(items)[i].expiry, failureCount)]
    {
      pMsg.status, pMsg.completed, pMsg.lastAttempt, pMsg.failureCount := status, completed, lastAttempt, failureCount;
      items := items[i := pMsg.View()];
      forall k | 0 <= k < |msgs| ensures PointsOn(msgs, k) {
        assert old(PointsOn(msgs, k));
      }
    }

    /** msg_getMessage has chosen this message. */
    method MarkDelivering(pMsg: ControlData, ghost i: nat, now: nat)
      requires Linked() && i < |msgs| && msgs[i] == pMsg
      modifies this`items, this`lastAttempt, this`status, this`trace,
               pMsg`status, pMsg`completed, pMsg`lastAttempt, pMsg`failureCount
      ensures Linked() && View() == HandOut(old(View()), i, now)
    {
      lastAttempt := now;
      status := RQ_DELIVERING;
      trace := trace + [Handed(pMsg.number)];
      SetMessage(pMsg, i, MQ_DELIVERING, pMsg.completed, now, pMsg.failureCount);
    }

    /** msg_deleteMessage. */
    method DeleteMessage(pMsg: ControlData, ghost i: nat, now: nat)
      requires Linked() && i < |msgs| && msgs[i] == pMsg
      modifies this`items, this`failureTotal, this`count, this`trace,
               pMsg`status, pMsg`completed, pMsg`lastAttempt, pMsg`failureCount
      ensures Linked() && View() == Delete(old(View()), i, now)
    {
      if pMsg.completed == 0 {
        failureTotal := failureTotal + 1;
        count := count - 1;
        trace := trace + [Completed(pMsg.number)];
        SetMessage(pMsg, i, MQ_FAILED, now, pMsg.lastAttempt, pMsg.failureCount);
      }
    }

    /** msg_updateMessageStatus. */
    method UpdateMessageStatus(pMsg: ControlData, ghost i: nat, status: MsgStatus, now: nat) returns (ok: bool)
      requires Linked() && i < |msgs| && msgs[i] == pMsg
      modifies this`items, this`status, this`successTotal, this`failureCount, this`count, this`lastAttempt,
               this`nextAttempt, this`trace, pMsg`status, pMsg`completed, pMsg`lastAttempt, pMsg`failureCount
      ensures Linked() && (ok, View()) == Update(old(View()), i, status, now)
    {
      if pMsg.completed != 0 {
        return false;
      }
      match status {
        case MQ_READY => this.status := RQ_READY;
        case MQ_DELIVERING => this.status := RQ_DELIVERING;
        case MQ_SUCCEDED => Succeeded(pMsg.number, now);
        case MQ_FAILED => this.status := RQ_READY;
        case MQ_UNDEFINED(_) =>
      }
      SetMessage(pMsg, i, status, if status.MQ_SUCCEDED? then now else 0, pMsg.lastAttempt, pMsg.failureCount);
      ok := true;
    }

    /** The MQ_SUCCEDED case, as far as the queue goes. */
    method Succeeded(number: nat, now: nat)
      modifies this`status, this`successTotal, this`failureCount, this`count, this`lastAttempt, this`nextAttempt, this`trace
      ensures status == RQ_READY && successTotal == old(successTotal) + 1 && failureCount == 0
      ensures count == old(count) - 1 && lastAttempt == nextAttempt == now && trace == old(trace) + [Completed(number)]
    {
      successTotal := successTotal + 1;
      failureCount := 0;
      count := count - 1;
      lastAttempt := now;
      nextAttempt := now;
      status := RQ_READY;
      trace := trace + [Completed(number)];
    }

    /** deliveryRespool. */
    method RespoolMessage(pMsg: ControlData, ghost i: nat, now: nat, retryTimes: seq<nat>)
      requires Linked() && i < |msgs| && msgs[i] == pMsg && retryTimes != []
      modifies this`items, this`status, this`lastAttempt, this`nextAttempt,
               pMsg`status, pMsg`completed, pMsg`lastAttempt, pMsg`failureCount
      ensures Linked() && View() == Respool(old(View()), i, now, retryTimes)
    {
      var delay := RetryDelay(retryTimes);
      lastAttempt := now;
      nextAttempt := now + delay;
      status := RQ_READY;
      SetMessage(pMsg, i, MQ_FAILED, pMsg.completed, now, pMsg.failureCount + 1);
    }

    method RetryDelay(retryTimes: seq<nat>) returns (delay: nat)
      requires retryTimes != []
      ensures delay == Delay(View(), retryTimes)
    {
      var retryIndex := if |retryTimes| > failureCount then failureCount else |retryTimes| - 1;
      delay := retryTimes[retryIndex];
      if delay < 3 * 60 || delay > 4 * 60 * 60 {
        delay := 10 * 60;
      }
    }

    /**
     One recipient's turn of msg_cleanQueue. The queue's own messages never point back, so taking
     one out only works at the front of the list; that is where the removable ones are.
     */
    method Clean(now: nat) returns (reported: seq<nat>)
      requires Linked() && FrontGoes(items, now)
      modifies this`pMsg, this`msgs, this`items, this`expired, msgs`prev
      ensures Linked() && View() == Queue.Clean(old(View()), now)
      ensures forall m <- msgs :: m in old(msgs)
      ensures reported == Reports(old(items), now)
    {
      ghost var q, f, lost := CleanPlan(View(), now);
      expired := lost;
      reported := Sweep(f, now);
      assert View() == q;
    }

    method Sweep(ghost f: nat, now: nat) returns (reported: seq<nat>)
      requires Linked() && f <= |msgs|
      requires forall i :: 0 <= i < |items| ==> (Removable(items[i], now) <==> i < f)
      modifies this`pMsg, this`msgs, this`items, msgs`prev
      ensures Linked() && msgs == old(msgs)[f..] && items == old(items)[f..]
      ensures reported == Reports(old(items), now)
    {
      ghost var ms, its, k := msgs, items, 0;
      var p := pMsg;
      reported := [];
      while p != null
        invariant 0 <= k <= |ms| && p == At(ms, k)
        invariant Linked() && msgs == ms[Front(k, f)..] && items == its[Front(k, f)..]
        invariant Told(reported, its, k, now)
        decreases |ms| - k
      {
        SuffixIn(ms, Front(k, f));
        var next, report := SweepOne(p, ms, its, k, f, now);
        var more := if report then [p.number] else [];
        ToldMore(reported, its, k, now);
        reported := reported + more;
        p := next;
        k := k + 1;
      }
      ToldAll(reported, its, now);
    }

    /** One turn of the loop: message k of the list there was. */
    method SweepOne(p: ControlData, ghost ms: seq<ControlData>, ghost its: seq<Msg>, ghost k: nat, ghost f: nat, now: nat)
      returns (next: ControlData?, report: bool)
      requires Linked() && |its| == |ms| && k < |ms| && f <= |ms| && p == ms[k]
      requires msgs == ms[Front(k, f)..] && items == its[Front(k, f)..]
      requires Removable(its[k], now) <==> k < f
      modifies this`pMsg, this`msgs, this`items, msgs`prev
      ensures Linked() && msgs == ms[Front(k + 1, f)..] && items == its[Front(k + 1, f)..]
      ensures next == At(ms, k + 1) && report == ReportedOnRemoval(its[k], now) && p.number == its[k].number
    {
      FrontNext(ms, k, f);
      FrontNext(its, k, f);
      AtFront(ms, k, f);
      next, report := Visit(p, k - Front(k, f), now);
    }

    /** One message of the list: it goes if it is removable, which only the first one may be. */
    method Visit(p: ControlData, ghost j: nat, now: nat) returns (next: ControlData?, report: bool)
      requires Linked() && j < |msgs| && msgs[j] == p && (Removable(items[j], now) ==> j == 0)
      modifies this`pMsg, this`msgs, this`items, msgs`prev
      ensures Linked() && next == At(old(msgs), j + 1) && report == ReportedOnRemoval(old(items)[j], now)
      ensures p.number == old(items)[j].number
      ensures if Removable(old(items)[j], now) then msgs == old(msgs)[1..] && items == old(items)[1..]
              else msgs == old(msgs) && items == old(items)
    {
      assert PointsOn(msgs, j) && p.View() == items[j];
      var deleteFlag;
      deleteFlag, report := ShouldDelete(p, now);
      if deleteFlag {
        TakeOut(p);
      }
      next := p.next;
    }

    method ShouldDelete(p: ControlData, now: nat) returns (deleteFlag: bool, report: bool)
      ensures deleteFlag == Removable(p.View(), now) && report == ReportedOnRemoval(p.View(), now)
    {
      deleteFlag, report := false, false;
      if p.completed != 0 && now - p.completed > 15 * 60 {
        deleteFlag := true;
      } else if now > p.expiryTime {
        report := true;
        deleteFlag := true;
      }
    }

    /** Unlink a message that is at the front of the list. */
    method TakeOut(p: ControlData)
      requires Linked() && msgs != [] && p == msgs[0]
      modifies this`pMsg, this`msgs, this`items, msgs`prev
      ensures Linked() && msgs == old(msgs)[1..] && items == old(items)[1..] && p.next == old(p.next)
    {
      assert PointsOn(msgs, 0);
      if p.next != null {
        p.next.prev := p.prev;
      }
      if p.prev != null {
        assert false;
      } else {
        if pMsg == p {
          pMsg := p.next;
        } else {
          assert false; // "Queue error"
        }
      }
      ghost var ms := msgs;
      msgs, items := msgs[1..], items[1..];
      forall i | 0 <= i < |msgs| ensures PointsOn(msgs, i) {
        assert old(PointsOn(ms, i + 1));
      }
    }
  }

  /** Among k messages, how many a cleaning that takes out the first f of all has taken out. */
  ghost function Front(k: nat, f: nat): nat { if k < f then k else f }

  /** The reports of the first k messages have been made. */
  ghost predicate Told(reported: seq<nat>, its: seq<Msg>, k: nat, now: nat) {
    k <= |its| && reported == Reports(its[..k], now)
  }

  lemma ToldMore(reported: seq<nat>, its: seq<Msg>, k: nat, now: nat)
    requires Told(reported, its, k, now) && k < |its|
    ensures Told(reported + if ReportedOnRemoval(its[k], now) then [its[k].number] else [], its, k + 1, now)
  {
    ReportsMore(its, k, now);
  }

  lemma ToldAll(reported: seq<nat>, its: seq<Msg>, now: nat)
    requires Told(reported, its, |its|, now)
    ensures reported == Reports(its, now)
  {
    assert its[..|its|] == its;
  }

  lemma SuffixIn(ms: seq<ControlData>, d: nat)
    requires d <= |ms|
    ensures forall m <- ms[d..] :: m in ms
  {
  }

  /** What is left of a list after one more message of it. */
  lemma FrontNext<T>(s: seq<T>, k: nat, f: nat)
    requires k < |s| && f <= |s|
    ensures if k < f then s[Front(k, f)..][1..] == s[Front(k + 1, f)..] else Front(k + 1, f) == Front(k, f)
    ensures s[Front(k, f)..][k - Front(k, f)] == s[k]
  {
  }

  lemma AtFront(ms: seq<ControlData>, k: nat, f: nat)
    requires k < |ms| && f <= |ms|
    ensures At(ms[Front(k, f)..], k - Front(k, f) + 1) == At(ms, k + 1)
  {
  }

  lemma {:induction false} FirstPendingIs(msgs: seq<Msg>, i: nat)
    requires i <= |msgs| && forall k :: 0 <= k < i ==> !Pending(msgs[k])
    requires i < |msgs| ==> Pending(msgs[i])
    ensures FirstPending(msgs) == if i < |msgs| then Some(i) else None
  {
  }

  /** The message at a position, or null past the end. */
  ghost function At(ms: seq<ControlData>, k: nat): ControlData? {
    if k < |ms| then ms[k] else null
  }

  /** Message i points to the next one. */
  ghost predicate PointsOn(ms: seq<ControlData>, i: nat)
    requires i < |ms|
    reads ms[i]
  {
    ms[i].next == At(ms, i + 1)
  }

  /** No message points back, and all belong to this queue. */
  ghost predicate Owned(queue: RecipQueue, ms: seq<ControlData>)
    reads ms
  {
    forall i :: 0 <= i < |ms| ==> ms[i].prev == null && ms[i].pRecipQueue == queue
  }

  /** `head` starts a list of exactly these messages, none twice. */
  ghost predicate Chain(head: ControlData?, ms: seq<ControlData>)
    reads ms
  {
    && head == At(ms, 0)
    && (forall i :: 0 <= i < |ms| ==> PointsOn(ms, i))
    && (forall i, j :: 0 <= i < j < |ms| ==> ms[i] != ms[j])
  }
}
