/**
 The delivery queues of all recipients as msgstore.c keeps them: queue objects updated in place,
 found by address and created on demand. Every operation is proved to do what Store says.
 */
module DeliveryQueue {
  import opened Common
  import opened Queue
  import opened MsgStore
  import Store
  import NsapIndex
  import Address
  import Deliver
  import Outcome

  /** What goes from a queue in order goes from its front. */
  lemma {:induction false} FrontsGo(s: Store.Store, now: nat)
    requires Store.Inv(s, now)
    ensures forall k :: 0 <= k < |s.recips| ==> FrontGoes(s.recips[k].msgs, now)
  {
    forall k | 0 <= k < |s.recips| ensures FrontGoes(s.recips[k].msgs, now) {
      InvFrontGoes(s.recips[k], now, now);
    }
  }

  class Queues {
    const subscribers: NsapIndex.Subscribers
    var recips: seq<RecipQueue>
    var count: nat
    var totalCount: nat
    var failureCount: nat
    var lastAttempt: nat
    var nextAttempt: nat
    var lastClean: nat
    ghost var views: seq<Recip>        // what the queues stand for
    ghost var owned: set<object>       // the queues and their messages, and some messages that were removed

    constructor (subscribers: NsapIndex.Subscribers)
      ensures Valid() && View() == Store.EMPTY && this.subscribers == subscribers
    {
      this.subscribers := subscribers;
      recips, count, totalCount, failureCount := [], 0, 0, 0;
      lastAttempt, nextAttempt, lastClean, views, owned := 0, 0, 0, [], {};
    }

    ghost function View(): Store.Store
      reads this
    {
      Store.Store(views, count, totalCount, failureCount, lastAttempt, nextAttempt, lastClean)
    }

    /** No queue is listed twice, and each is linked and stands for its view. */
    ghost predicate Valid()
      reads this`recips, this`views, this`owned, owned
    {
      && this !in owned && subscribers !in owned && subscribers.subHashIndex !in owned
      && Held(recips, views, owned)
    }

    /** Queue i shares no message with the others. */
    ghost predicate Alone(i: nat)
      requires i < |recips|
      reads this`recips, recips
    {
      forall k :: 0 <= k < |recips| && k != i ==>
        recips[k] != recips[i] && forall m <- recips[k].msgs :: m !in recips[i].msgs
    }

    lemma EachAlone(i: nat)
      requires Valid() && i < |recips|
      ensures Distinct(recips) && Alone(i) && |views| == |recips| && InStep(recips[i], views[i])
      ensures forall k :: 0 <= k < |recips| ==> Sits(recips[k], views[k], owned)
    {
      HeldEach(recips, views, owned);
      forall k | 0 <= k < |recips| && k != i
        ensures recips[k] != recips[i] && forall m <- recips[k].msgs :: m !in recips[i].msgs
      {
        assert Sits(recips[k], views[k], owned) && Sits(recips[i], views[i], owned);
        Apart(recips[k], recips[i]);
      }
    }

    /** DQ_addMessage for queue i. */
    method AddTo(q: RecipQueue, ghost i: nat, now: nat) returns (m: ControlData)
      requires Valid() && i < |recips| && recips[i] == q
      modifies this`views, this`owned, q, q.msgs
      ensures Valid() && i < |old(views)| && q.nextAttempt == Add(old(views)[i], now).nextAttempt
      ensures views == old(views)[i := Add(old(views)[i], now)]
      ensures fresh(m) && owned == old(owned) + {m}
    {
      EachAlone(i);
      m := q.Add(now);
      views := views[i := q.View()];
      forall k | 0 <= k < |recips| && k != i ensures Sits(recips[k], views[k], owned) {
        assert old(Sits(recips[k], views[k], owned));
      }
      HeldGrown(recips, views, owned, i, m);
      owned := owned + {m};
    }

    /** Message j of queue i is handed out. */
    method Mark(i: nat, pMsg: ControlData, ghost j: nat, now: nat)
      requires Valid() && i < |recips| && j < |recips[i].msgs| && recips[i].msgs[j] == pMsg
      modifies this`views, recips[i], recips[i].msgs
      ensures Valid() && recips[i].msgs == old(recips[i].msgs)
      ensures i < |old(views)| && j < |old(views)[i].msgs| && views == old(views)[i := HandOut(old(views)[i], j, now)]
    {
      EachAlone(i);
      var q := recips[i];
      q.MarkDelivering(pMsg, j, now);
      views := views[i := q.View()];
      forall k | 0 <= k < |recips| && k != i ensures Sits(recips[k], views[k], owned) {
        assert old(Sits(recips[k], views[k], owned));
      }
      assert Sits(recips[i], views[i], owned);
      HeldAll(recips, views, owned);
    }

    /** The delivery of message j of queue i has ended: the actions of deliver.c. */
    method EndDelivery(pMsg: ControlData, ghost i: nat, ghost j: nat, fate: Deliver.Fate, now: nat, retryTimes: seq<nat>)
      requires Valid() && i < |recips| && j < |recips[i].msgs| && recips[i].msgs[j] == pMsg
      requires fate.Respooled? ==> retryTimes != []
      modifies this`views, recips[i], recips[i].msgs
      ensures Valid() && j < |old(views)[i].msgs|
      ensures views == old(views)[i := Outcome.Finish(old(views)[i], j, fate, now, retryTimes)]
    {
      EachAlone(i);
      var q := pMsg.pRecipQueue;
      Conclude(pMsg, j, fate, now, retryTimes);
      views := views[i := q.View()];
      forall k | 0 <= k < |recips| && k != i ensures Sits(recips[k], views[k], owned) {
        assert old(Sits(recips[k], views[k], owned));
      }
      assert Sits(recips[i], views[i], owned);
      HeldAll(recips, views, owned);
    }

    /** msg_cleanQueue's turn for queue i. */
    method CleanOne(i: nat, now: nat)
      requires Valid() && i < |recips| == |views| && FrontGoes(views[i].msgs, now)
      modifies this`views, recips[i], recips[i].msgs
      ensures Valid() && views == old(views)[i := Clean(old(views)[i], now)]
    {
      EachAlone(i);
      var q := recips[i];
      var _ := q.Clean(now);
      views := views[i := q.View()];
      forall k | 0 <= k < |recips| && k != i ensures Sits(recips[k], views[k], owned) {
        assert old(Sits(recips[k], views[k], owned));
      }
      assert Sits(recips[i], views[i], owned);
      HeldAll(recips, views, owned);
    }

    /** What the index says about the subscribers it can find by their id. */
    ghost function Entries(): seq<NsapIndex.Profile>
      reads subscribers
      requires subscribers.Counted()
    {
      if subscribers.initialized then subscribers.subproArray[..subscribers.count] else []
    }

    /** Look a subscriber up by the text of an address. */
    method FindSubscriber(addr: Uint32) returns (nsap: Option<Nsap>)
      requires subscribers.Counted()
      ensures nsap == Store.SubscriberNsap(Entries(), addr)
    {
      var emsdAddrStr := Address.Decimal(addr);
      Address.PlainAlone(addr);
      var r := subscribers.GetEntry(NsapIndex.Query(Some(Address.Denoted(emsdAddrStr)), None));
      nsap := match r case None => None case Some(i) => Some(subscribers.subproArray[i].nsap);
    }

    /** DQ_getRecipQueue. */
    method GetRecipQueue(addr: Uint32, now: nat) returns (q: RecipQueue?, ghost i: nat)
      requires Valid() && subscribers.Counted()
      modifies this`recips, this`views, this`owned
      ensures Valid()
      ensures (if q == null then None else Some(i), views) == Store.GetRecipQueue(old(views), Entries(), addr, now)
      ensures q != null ==> i < |recips| && recips[i] == q
      ensures forall o <- owned :: o in old(owned) || fresh(o)
    {
      var found := FindQueue(addr);
      if found.Some? {
        return recips[found.value], found.value;
      }
      var nsap := FindSubscriber(addr);
      if nsap.None? {
        return null, 0;
      }
      q := Create(addr, nsap.value, now);
      i := 0;
    }

    method Create(addr: Uint32, nsap: Nsap, now: nat) returns (q: RecipQueue)
      requires Valid()
      modifies this`recips, this`views, this`owned
      ensures Valid() && fresh(q) && owned == old(owned) + {q}
      ensures recips == [q] + old(recips) && views == [NewRecip(addr, nsap, now)] + old(views)
    {
      q := new RecipQueue(addr, nsap, now);
      HeldKnows(recips, views, owned, q);
      HeldMore(recips, views, owned, q);
      HeldCons(q, q.View(), recips, views, owned + {q});
      recips, views, owned := [q] + recips, [q.View()] + views, owned + {q};
    }

    method FindQueue(addr: Uint32) returns (r: Option<nat>)
      requires Valid()
      ensures r == Store.Find(views, addr)
      ensures r.Some? ==> r.value < |recips|
    {
      HeldEach(recips, views, owned);
      var k := 0;
      while k < |recips|
        invariant k <= |recips|
        invariant forall j :: 0 <= j < k ==> views[j].addr != addr
      {
        assert Sits(recips[k], views[k], owned);
        if recips[k].recipient == addr {
          break;
        }
        k := k + 1;
      }
      r := if k < |recips| then Some(k) else None;
      FindIs(views, addr, k);
    }

    /** One recipient of msg_addMessage with an EMSD address. */
    method AddRecipient(addr: Uint32, now: nat) returns (ok: bool)
      requires Valid() && subscribers.Counted()
      modifies this, owned
      ensures Valid() && (View(), ok) == Store.AddOne(old(View()), old(Entries()), addr, now)
      ensures forall o <- owned :: o in old(owned) || fresh(o)
    {
      ghost var s, entries := View(), Entries();
      ghost var i;
      var q;
      q, i := GetRecipQueue(addr, now);
      ghost var found := View();
      ok := q != null;
      if ok {
        QueueFor(q, i, now);
      } else {
        CountFailure();
      }
      Store.AddOneIs(s, found, View(), entries, addr, now, if ok then Some(i) else None);
    }

    method CountFailure()
      modifies this`count, this`failureCount
      ensures View() == old(View()).(count := old(count) + 1, failureCount := old(failureCount) + 1)
    {
      count := count + 1;
      failureCount := failureCount + 1;
    }

    method QueueFor(q: RecipQueue, ghost i: nat, now: nat)
      requires Valid() && i < |recips| && recips[i] == q
      modifies this, owned
      ensures Valid() && i < |old(views)| && View() == Store.Queued(old(View()), i, now)
      ensures forall o <- owned :: o in old(owned) || fresh(o)
    {
      Known(i);
      var _ := AddTo(q, i, now);
      CountQueued(q.nextAttempt);
    }

    method CountQueued(t: nat)
      modifies this`count, this`nextAttempt
      ensures count == old(count) + 1 && nextAttempt == Store.Sooner(old(nextAttempt), t)
    {
      count := count + 1;
      if nextAttempt == 0 || nextAttempt > t {
        nextAttempt := t;
      }
    }

    /** The messages of a queue are among those of all queues. */
    lemma Known(i: nat)
      requires Valid() && i < |recips|
      ensures recips[i] in owned && forall m <- recips[i].msgs :: m in owned
    {
      HeldEach(recips, views, owned);
      assert Sits(recips[i], views[i], owned);
    }

    /** msg_addMessage for recipients given by their texts. */
    method AddMessage(recipients: seq<string>, now: nat) returns (ok: bool)
      requires Valid() && subscribers.Counted()
      modifies this, owned
      ensures Valid()
      ensures (View(), ok) == Store.AddMessage(old(View()), old(Entries()), Store.Addresses(recipients), now)
      ensures forall o <- owned :: o in old(owned) || fresh(o)
    {
      var addrs := Store.Addresses(recipients);
      var deliveryCount := AddEach(addrs, now);
      if deliveryCount > 0 {
        totalCount := totalCount + deliveryCount;
      }
      ok := deliveryCount > 0;
    }

    /** One turn: an address that is none of ours is skipped. */
    method AddIfLocal(addr: Uint32, now: nat) returns (ok: bool)
      requires Valid() && subscribers.Counted()
      modifies this, owned
      ensures Valid() && subscribers.Counted() && Entries() == old(Entries())
      ensures Store.OneTurn(old(View()), old(Entries()), addr, now, View(), ok)
      ensures forall o <- owned :: o in old(owned) || fresh(o)
    {
      ok := false;
      if addr != 0 {
        ok := AddRecipient(addr, now);
      }
    }

    method AddEach(addrs: seq<Uint32>, now: nat) returns (deliveryCount: nat)
      requires Valid() && subscribers.Counted()
      modifies this, owned
      ensures Valid()
      ensures (View(), deliveryCount) == Store.AddAll(old(View()), old(Entries()), addrs, 0, now)
      ensures forall o <- owned :: o in old(owned) || fresh(o)
    {
      deliveryCount := 0;
      ghost var entries := Entries();
      ghost var goal := Store.AddAll(View(), entries, addrs, 0, now);
      assert addrs[0..] == addrs;
      var k := 0;
      while k < |addrs|
        invariant 0 <= k <= |addrs| && Valid() && deliveryCount < Store.MOST_RECIPIENTS
        invariant subscribers.Counted() && Entries() == entries
        invariant Store.AddsUpTo(View(), entries, addrs, k, deliveryCount, now, goal)
        invariant forall o <- owned :: o in old(owned) || fresh(o)
      {
        ghost var s := View();
        var ok := AddIfLocal(addrs[k], now);
        Store.AddsOne(s, entries, addrs, k, deliveryCount, now, goal, View(), ok);
        k := k + 1;
        if ok {
          deliveryCount := deliveryCount + 1;
          if deliveryCount > 32 {
            break;
          }
        }
      }
      Store.AddsNone(View(), entries, addrs, k, deliveryCount, now, goal);
    }

    // ---------- cleaning and choosing ----------

    /** msg_cleanQueue. */
    method CleanQueue(now: nat, dumpDeliveryQueue: bool)
      requires Valid() && Store.Inv(View(), now)
      modifies this`views, this`lastClean, owned
      ensures Valid() && View() == Store.CleanQueue(old(View()), now, dumpDeliveryQueue)
    {
      if now < lastClean + 60 && !dumpDeliveryQueue {
        return;
      }
      FrontsGo(View(), now);
      CleanAll(now);
      lastClean := now;
    }

    method CleanAll(now: nat)
      requires Valid() && forall k :: 0 <= k < |views| ==> FrontGoes(views[k].msgs, now)
      modifies this`views, owned
      ensures Valid()
      ensures views == Store.CleanEach(old(views), now)
    {
      HeldEach(recips, views, owned);
      ghost var vs := views;
      for i := 0 to |recips|
        invariant Valid() && |vs| == |recips| && CleanedUpTo(views, vs, i, now)
      {
        Known(i);
        CleanedNext(views, vs, i, now);
        CleanOne(i, now);
      }
      CleanedAll(views, vs, now);
    }

    /** msg_getMessage: the message and where it is, or null. */
    method GetMessage(now: nat, dumpDeliveryQueue: bool) returns (pMsg: ControlData?, ghost i: nat, ghost j: nat)
      requires Valid() && Store.Inv(View(), now)
      modifies this`views, this`lastClean, this`lastAttempt, this`nextAttempt, owned
      ensures Valid()
      ensures (if pMsg == null then None else Some(i), View()) == Store.GetMessage(old(View()), now, dumpDeliveryQueue)
      ensures pMsg != null ==>
                && i < |recips| && j < |recips[i].msgs| && recips[i].msgs[j] == pMsg
                && Some(j) == Eligible(Store.CleanQueue(old(View()), now, dumpDeliveryQueue).recips[i], now)
    {
      CleanQueue(now, dumpDeliveryQueue);
      if nextAttempt > now {
        return null, 0, 0;
      }
      pMsg, i, j := TakeMessage(now);
    }

    method TakeMessage(now: nat) returns (pMsg: ControlData?, ghost i: nat, ghost j: nat)
      requires Valid()
      modifies this`views, this`lastAttempt, this`nextAttempt, owned
      ensures Valid()
      ensures (if pMsg == null then None else Some(i), View()) == Store.Take(old(View()), now)
      ensures pMsg != null ==>
                && i < |recips| && j < |recips[i].msgs| && recips[i].msgs[j] == pMsg
                && i < |old(views)| && Some(j) == Eligible(old(views)[i], now)
    {
      var k;
      k, pMsg := FindMessage(now);
      i, j := k, 0;
      lastAttempt := now;
      nextAttempt := now + if pMsg != null then 0 else 2;
      if pMsg != null {
        j := Eligible(views[k], now).value;
        Known(k);
        Mark(k, pMsg, j, now);
      }
    }

    /** The loops of msg_getMessage: the first pending message of the first queue that has one and is due. */
    method FindMessage(now: nat) returns (i: nat, pMsg: ControlData?)
      requires Valid()
      ensures match Store.Choose(views, now)
              case None => pMsg == null
              case Some(k) =>
                && i == k < |recips| && Eligible(views[k], now).value < |recips[k].msgs|
                && recips[k].msgs[Eligible(views[k], now).value] == pMsg
    {
      HeldEach(recips, views, owned);
      i, pMsg := 0, null;
      while i < |recips|
        invariant 0 <= i <= |recips| && pMsg == null
        invariant forall k :: 0 <= k < i ==> Eligible(views[k], now).None?
      {
        assert Sits(recips[i], views[i], owned);
        if recips[i].status.RQ_READY? && recips[i].nextAttempt <= now {
          pMsg := recips[i].FirstPendingMessage();
          if pMsg != null {
            break;
          }
        }
        i := i + 1;
      }
      ChooseIs(views, now, i);
    }

    /** msg_deliverNow. */
    method DeliverNow(nsap: Nsap, now: nat)
      requires Valid()
      modifies this`views, owned
      ensures Valid() && View() == Store.DeliverNow(old(View()), nsap, now)
    {
      HeldEach(recips, views, owned);
      ghost var vs := views;
      for i := 0 to |recips|
        invariant Valid() && |views| == |vs| == |recips|
        invariant forall k :: 0 <= k < i ==>
                    views[k] == if vs[k].nsap == nsap then Queue.DeliverNow(vs[k], now) else vs[k]
        invariant forall k :: i <= k < |views| ==> views[k] == vs[k]
      {
        Known(i);
        DeliverOne(i, nsap, now);
      }
    }

    method DeliverOne(i: nat, nsap: Nsap, now: nat)
      requires Valid() && i < |recips| == |views|
      modifies this`views, recips[i]
      ensures Valid()
      ensures views == old(views)[i := if old(views)[i].nsap == nsap then Queue.DeliverNow(old(views)[i], now) else old(views)[i]]
    {
      EachAlone(i);
      var q := recips[i];
      if q.count > 0 && q.nsap == nsap {
        q.nextAttempt := now;
      }
      views := views[i := q.View()];
      forall k | 0 <= k < |recips| && k != i ensures Sits(recips[k], views[k], owned) {
        assert old(Sits(recips[k], views[k], owned));
      }
      assert Sits(recips[i], views[i], owned);
      HeldAll(recips, views, owned);
    }
  }

  /** What the actions that end a delivery do with its message. */
  method Conclude(pMsg: ControlData, ghost j: nat, fate: Deliver.Fate, now: nat, retryTimes: seq<nat>)
    requires var q := pMsg.pRecipQueue; q.Linked() && j < |q.msgs| && q.msgs[j] == pMsg
    requires fate.Respooled? ==> retryTimes != []
    modifies pMsg.pRecipQueue, pMsg
    ensures var q := pMsg.pRecipQueue;
            && q.Linked() && q.msgs == old(q.msgs)
            && q.View() == Outcome.Finish(old(q.View()), j, fate, now, retryTimes)
  {
    var q := pMsg.pRecipQueue;
    match fate {
      case Succeeded => var _ := q.UpdateMessageStatus(pMsg, j, MQ_SUCCEDED, now);
      case Respooled => q.RespoolMessage(pMsg, j, now, retryTimes);
      case Deleted => q.DeleteMessage(pMsg, j, now);
      case Abandoned =>
    }
  }

  ghost predicate Within(q: RecipQueue, owned: set<object>)
    reads q
  {
    q in owned && forall m <- q.msgs :: m in owned
  }

  /** A queue of the list: known with its messages, linked, and standing for its view. */
  ghost predicate Sits(q: RecipQueue, v: Recip, owned: set<object>)
    reads q, q.msgs
  {
    Within(q, owned) && InStep(q, v)
  }

  lemma SitsMore(q: RecipQueue, v: Recip, owned: set<object>, o: object)
    requires Sits(q, v, owned)
    ensures Sits(q, v, owned + {o})
  {
  }

  ghost predicate Held(qs: seq<RecipQueue>, vs: seq<Recip>, owned: set<object>)
    reads owned
  {
    && |qs| == |vs|
    && (qs != [] ==>
          && qs[0] in owned && Within(qs[0], owned) && Sits(qs[0], vs[0], owned)
          && qs[0] !in qs[1..] && Held(qs[1..], vs[1..], owned))
  }

  /** No queue is listed twice. */
  ghost predicate Distinct(qs: seq<RecipQueue>) {
    forall k, l :: 0 <= k < l < |qs| ==> qs[k] != qs[l]
  }

  lemma {:induction false} HeldEach(qs: seq<RecipQueue>, vs: seq<Recip>, owned: set<object>)
    requires Held(qs, vs, owned)
    ensures |qs| == |vs| && forall k :: 0 <= k < |qs| ==> Sits(qs[k], vs[k], owned)
    ensures Distinct(qs)
  {
    if qs != [] {
      HeldEach(qs[1..], vs[1..], owned);
      forall k | 0 <= k < |qs| ensures Sits(qs[k], vs[k], owned) {
        assert k > 0 ==> qs[k] == qs[1..][k - 1] && vs[k] == vs[1..][k - 1];
      }
      forall k, l | 0 <= k < l < |qs| ensures qs[k] != qs[l] {
        assert qs[l] == qs[1..][l - 1];
        assert k > 0 ==> qs[k] == qs[1..][k - 1];
      }
    }
  }

  lemma {:induction false} HeldMore(qs: seq<RecipQueue>, vs: seq<Recip>, owned: set<object>, q: RecipQueue)
    requires Held(qs, vs, owned)
    ensures Held(qs, vs, owned + {q})
  {
    if qs != [] {
      HeldMore(qs[1..], vs[1..], owned, q);
    }
  }

  /** Queue i has a new message. */
  lemma HeldGrown(qs: seq<RecipQueue>, vs: seq<Recip>, owned: set<object>, i: nat, m: ControlData)
    requires |qs| == |vs| && i < |qs| && Distinct(qs) && Sits(qs[i], vs[i], owned + {m})
    requires forall k :: 0 <= k < |qs| && k != i ==> Sits(qs[k], vs[k], owned)
    ensures Held(qs, vs, owned + {m})
  {
    forall k | 0 <= k < |qs| ensures Sits(qs[k], vs[k], owned + {m}) {
      if k != i {
        SitsMore(qs[k], vs[k], owned, m);
      }
    }
    HeldAll(qs, vs, owned + {m});
  }

  /** A queue not among the known ones is not listed. */
  lemma {:induction false} HeldKnows(qs: seq<RecipQueue>, vs: seq<Recip>, owned: set<object>, q: RecipQueue)
    requires Held(qs, vs, owned) && q !in owned
    ensures q !in qs
  {
    if qs != [] {
      HeldKnows(qs[1..], vs[1..], owned, q);
      assert qs == [qs[0]] + qs[1..];
    }
  }

  lemma HeldCons(q: RecipQueue, v: Recip, qs: seq<RecipQueue>, vs: seq<Recip>, owned: set<object>)
    requires Held(qs, vs, owned) && q in owned && Within(q, owned) && Sits(q, v, owned) && q !in qs
    ensures Held([q] + qs, [v] + vs, owned)
  {
    assert ([q] + qs)[1..] == qs && ([v] + vs)[1..] == vs;
  }

  lemma {:induction false} HeldAll(qs: seq<RecipQueue>, vs: seq<Recip>, owned: set<object>)
    requires |qs| == |vs| && forall k :: 0 <= k < |qs| ==> Sits(qs[k], vs[k], owned)
    requires Distinct(qs)
    ensures Held(qs, vs, owned)
  {
    if qs != [] {
      HeldAll(qs[1..], vs[1..], owned);
    }
  }

  ghost predicate InStep(q: RecipQueue, v: Recip)
    reads q, q.msgs
  {
    q.Linked() && q.View() == v
  }

  /** Two queues share no message. */
  lemma Apart(q: RecipQueue, r: RecipQueue)
    requires q.Linked() && r.Linked() && q != r
    ensures forall m <- q.msgs :: m !in r.msgs
  {
  }

  /** The first i of the queues have been cleaned. */
  ghost predicate CleanedUpTo(views: seq<Recip>, vs: seq<Recip>, i: nat, now: nat) {
    && |views| == |vs| && i <= |vs|
    && (forall k :: 0 <= k < i ==> views[k] == Clean(vs[k], now))
    && (forall k :: i <= k < |vs| ==> views[k] == vs[k])
  }

  lemma CleanedNext(views: seq<Recip>, vs: seq<Recip>, i: nat, now: nat)
    requires CleanedUpTo(views, vs, i, now) && i < |vs|
    ensures views[i] == vs[i] && CleanedUpTo(views[i := Clean(views[i], now)], vs, i + 1, now)
  {
  }

  lemma CleanedAll(views: seq<Recip>, vs: seq<Recip>, now: nat)
    requires CleanedUpTo(views, vs, |vs|, now)
    ensures views == Store.CleanEach(vs, now)
  {
  }

  lemma {:induction false} FindIs(recips: seq<Recip>, addr: Uint32, k: nat)
    requires k <= |recips| && forall j :: 0 <= j < k ==> recips[j].addr != addr
    requires k < |recips| ==> recips[k].addr == addr
    ensures Store.Find(recips, addr) == if k < |recips| then Some(k) else None
  {
    if k > 0 {
      FindIs(recips[1..], addr, k - 1);
    }
  }

  lemma {:induction false} ChooseIs(recips: seq<Recip>, now: nat, i: nat)
    requires i <= |recips| && forall k :: 0 <= k < i ==> Eligible(recips[k], now).None?
    requires i < |recips| ==> Eligible(recips[i], now).Some?
    ensures Store.Choose(recips, now) == if i < |recips| then Some(i) else None
  {
    if i > 0 {
      ChooseIs(recips[1..], now, i - 1);
    }
  }
}
