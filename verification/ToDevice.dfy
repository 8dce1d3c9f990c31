/** The delivery scheduler of todevice.c. */
module ToDevice {
  import opened Common
  import opened MsgStore
  import opened DeliveryQueue
  import Queue
  import Store
  import Deliver

  /**
   mts_tryDelivery at a fixed clock: `prepares` says for which messages mts_preprocessDeliverRequest
   succeeds, `started` which deliveries were begun.
   */
  method TryDelivery(dq: Queues, now: nat, dumpDeliveryQueue: bool, prepares: set<Store.Started>)
    returns (started: seq<Store.Started>)
    requires dq.Valid() && Store.Inv(dq.View(), now) && now > 0
    modifies dq`views, dq`lastClean, dq`lastAttempt, dq`nextAttempt, dq.owned
    ensures dq.Valid() && (started, dq.View()) == Store.TryDelivery(old(dq.View()), now, dumpDeliveryQueue, prepares)
  {
    ghost var goal := Store.TryDelivery(dq.View(), now, dumpDeliveryQueue, prepares);
    var dump := dumpDeliveryQueue;
    started := [];
    assert started + goal.0 == goal.0;
    while true
      invariant dq.Valid() && Store.Inv(dq.View(), now)
      invariant LeadsTo(started, dq.View(), now, dump, prepares, goal)
      decreases Store.TurnsLeft(dq.View(), now, dump)
    {
      OneTurn(started, dq.View(), now, dump, prepares, goal);
      var item := StartNext(dq, now, dump, prepares);
      if item.None? {
        return;
      }
      started := started + [item.value];
      dump := false;
    }
  }

  /** From here on the scheduler reaches the goal. */
  ghost predicate LeadsTo(started: seq<Store.Started>, s: Store.Store, now: nat, dump: bool,
                          prepares: set<Store.Started>, goal: (seq<Store.Started>, Store.Store)) {
    var (more, s') := Store.TryDelivery(s, now, dump, prepares);
    (started + more, s') == goal
  }

  lemma OneTurn(started: seq<Store.Started>, s: Store.Store, now: nat, dump: bool,
                prepares: set<Store.Started>, goal: (seq<Store.Started>, Store.Store))
    requires LeadsTo(started, s, now, dump, prepares, goal) && Store.Inv(s, now) && now > 0
    ensures var (item, s') := Store.Turn(s, now, dump, prepares);
            && Store.Inv(s', now)
            && if item.None? then (started, s') == goal
               else
                 && LeadsTo(started + [item.value], s', now, false, prepares, goal)
                 && Store.TurnsLeft(s', now, false) < Store.TurnsLeft(s, now, dump)
  {
    Store.TurnByTurn(s, now, dump, prepares);
    Store.TurnKeeps(s, now, dump, prepares);
    var (item, s') := Store.Turn(s, now, dump, prepares);
    if item.Some? {
      var rest := Store.TryDelivery(s', now, false, prepares).0;
      assert started + ([item.value] + rest) == started + [item.value] + rest;
    } else {
      assert started + [] == started;
    }
  }

  /** One turn of its loop. */
  method StartNext(dq: Queues, now: nat, dump: bool, prepares: set<Store.Started>) returns (item: Option<Store.Started>)
    requires dq.Valid() && Store.Inv(dq.View(), now)
    modifies dq`views, dq`lastClean, dq`lastAttempt, dq`nextAttempt, dq.owned
    ensures dq.Valid() && (item, dq.View()) == Store.Turn(old(dq.View()), now, dump, prepares)
  {
    ghost var s := dq.View();
    var pMsg: ControlData?;
    ghost var i, j;
    pMsg, i, j := dq.GetMessage(now, dump);
    Store.TurnIs(s, now, dump, prepares, i, j);
    if pMsg == null {
      return None;
    }
    item := Prepare(dq, pMsg, i, j, now, prepares);
  }

  /** mts_preprocessDeliverRequest for the message got; one that fails is deleted. */
  method Prepare(dq: Queues, pMsg: ControlData, ghost i: nat, ghost j: nat, now: nat, prepares: set<Store.Started>)
    returns (item: Option<Store.Started>)
    requires dq.Valid() && i < |dq.recips| && j < |dq.recips[i].msgs| && dq.recips[i].msgs[j] == pMsg
    modifies dq`views, dq.owned
    ensures dq.Valid() && i < |old(dq.views)| && j < |old(dq.views)[i].msgs|
    ensures (item, dq.View()) == Store.Prepared(old(dq.View()), i, j, now, prepares)
  {
    item := Some(Store.Started(pMsg.pRecipQueue.recipient, pMsg.number));
    dq.Known(i);
    dq.EachAlone(i);
    if item.value !in prepares {
      dq.EndDelivery(pMsg, i, j, Deliver.Deleted, now, []);
      item := None;
    }
  }
}
