/**
 All delivery queues together, as values: finding or creating a recipient's queue, adding a message
 for many recipients, choosing the next message, cleaning, and one pass of the delivery scheduler.
 */
module Store {
  import opened Common
  import opened Queue
  import NsapIndex
  import Address

  const CLEAN_INTERVAL: nat := 60
  const IDLE_WAIT: nat := 2
  const MOST_RECIPIENTS: nat := 33

  datatype Store = Store(
    recips: seq<Recip>,
    count: nat,
    totalCount: nat,
    failureCount: nat,
    lastAttempt: nat,
    nextAttempt: nat,
    lastClean: nat)

  const EMPTY := Store([], 0, 0, 0, 0, 0, 0)

  ghost predicate Inv(s: Store, clock: nat) {
    && (forall i :: 0 <= i < |s.recips| ==> Queue.Inv(s.recips[i], clock))
    && (forall i, j :: 0 <= i < j < |s.recips| ==> s.recips[i].addr != s.recips[j].addr)
  }

  // ---------- adding ----------

  /** The queue of an address, if there is one. */
  function Find(recips: seq<Recip>, addr: Uint32): (r: Option<nat>)
    ensures r.Some? ==> r.value < |recips| && recips[r.value].addr == addr
    ensures r.None? ==> forall i :: 0 <= i < |recips| ==> recips[i].addr != addr
  {
    if recips == [] then None
    else if recips[0].addr == addr then Some(0)
    else match Find(recips[1..], addr) case None => None case Some(i) => Some(i + 1)
  }

  /** The device address of the first subscriber with this EMSD address. */
  function SubscriberNsap(entries: seq<NsapIndex.Profile>, addr: Uint32): (r: Option<Nsap>)
    ensures r.None? ==> forall i :: 0 <= i < |entries| ==> entries[i].address != Some(addr)
    ensures r.Some? ==> exists i :: 0 <= i < |entries| && entries[i] == NsapIndex.Profile(Some(addr), r.value)
                                    && forall j :: 0 <= j < i ==> entries[j].address != Some(addr)
  {
    var q := NsapIndex.Query(Some(Some(addr)), None);
    match NsapIndex.First(entries, q)
    case None =>
      assert forall i :: 0 <= i < |entries| ==> !NsapIndex.Fits(entries[i], q);
      None
    case Some(i) =>
      assert NsapIndex.Fits(entries[i], q);
      assert forall j :: 0 <= j < i ==> !NsapIndex.Fits(entries[j], q);
      Some(entries[i].nsap)
  }

  /** DQ_getRecipQueue: the queues with the address's queue among them, and its position. */
  function GetRecipQueue(recips: seq<Recip>, entries: seq<NsapIndex.Profile>, addr: Uint32, now: nat): (Option<nat>, seq<Recip>) {
    match Find(recips, addr)
    case Some(i) => (Some(i), recips)
    case None =>
      match SubscriberNsap(entries, addr)
      case None => (None, recips)
      case Some(nsap) => (Some(0), [NewRecip(addr, nsap, now)] + recips)
  }

  /** The time of the next attempt once one queue is due at `t`; 0 is no time. */
  function Sooner(nextAttempt: nat, t: nat): nat {
    if nextAttempt == 0 || nextAttempt > t then t else nextAttempt
  }

  /** A message is added to queue i. */
  function Queued(s: Store, i: nat, now: nat): Store
    requires i < |s.recips|
  {
    var q := Add(s.recips[i], now);
    s.(recips := s.recips[i := q], count := s.count + 1, nextAttempt := Sooner(s.nextAttempt, q.nextAttempt))
  }

  /** One recipient of msg_addMessage with an EMSD address. */
  function AddOne(s: Store, entries: seq<NsapIndex.Profile>, addr: Uint32, now: nat): (Store, bool) {
    var (r, recips) := GetRecipQueue(s.recips, entries, addr, now);
    if r.None? then (s.(recips := recips, count := s.count + 1, failureCount := s.failureCount + 1), false)
    else if r.value >= |recips| then (s, false)
    else (Queued(s.(recips := recips), r.value, now), true)
  }

  /** What the recipients' texts denote; 0 marks one that is no EMSD address. */
  function Addresses(recipients: seq<string>): (addrs: seq<Uint32>)
    ensures |addrs| == |recipients|
  {
    seq(|recipients|, i requires 0 <= i < |recipients| => Address.Rfc822ToEmsdAddr(Some(recipients[i])))
  }

  /** The recipients of msg_addMessage in turn, until one copy too many has been queued. */
  function AddAll(s: Store, entries: seq<NsapIndex.Profile>, addrs: seq<Uint32>, queued: nat, now: nat): (Store, nat)
    decreases |addrs|
  {
    if addrs == [] || queued >= MOST_RECIPIENTS then (s, queued)
    else if addrs[0] == 0 then AddAll(s, entries, addrs[1..], queued, now)
    else
      var (s', ok) := AddOne(s, entries, addrs[0], now);
      AddAll(s', entries, addrs[1..], queued + if ok then 1 else 0, now)
  }

  /** From recipient k on the recipients' loop comes to the goal. */
  ghost predicate AddsUpTo(s: Store, entries: seq<NsapIndex.Profile>, addrs: seq<Uint32>, k: nat, queued: nat, now: nat, goal: (Store, nat))
    requires k <= |addrs|
  {
    AddAll(s, entries, addrs[k..], queued, now) == goal
  }

  lemma AddsNone(s: Store, entries: seq<NsapIndex.Profile>, addrs: seq<Uint32>, k: nat, queued: nat, now: nat, goal: (Store, nat))
    requires k <= |addrs| && AddsUpTo(s, entries, addrs, k, queued, now, goal) && (k == |addrs| || queued >= MOST_RECIPIENTS)
    ensures (s, queued) == goal
  {
  }

  /** What one turn of it does: an address that is none of ours is skipped. */
  ghost predicate OneTurn(s: Store, entries: seq<NsapIndex.Profile>, addr: Uint32, now: nat, s': Store, ok: bool) {
    if addr == 0 then s' == s && !ok else (s', ok) == AddOne(s, entries, addr, now)
  }

  lemma AddsOne(s: Store, entries: seq<NsapIndex.Profile>, addrs: seq<Uint32>, k: nat, queued: nat, now: nat, goal: (Store, nat),
                s': Store, ok: bool)
    requires k < |addrs| && AddsUpTo(s, entries, addrs, k, queued, now, goal) && queued < MOST_RECIPIENTS
    requires OneTurn(s, entries, addrs[k], now, s', ok)
    ensures AddsUpTo(s', entries, addrs, k + 1, queued + if ok then 1 else 0, now, goal)
  {
    assert addrs[k..][1..] == addrs[k + 1..];
    AddAllStep(s, entries, addrs[k..], queued, now);
  }

  /** What becomes of one recipient once its queue was looked for. */
  lemma AddOneIs(s: Store, found: Store, s': Store, entries: seq<NsapIndex.Profile>, addr: Uint32, now: nat, r: Option<nat>)
    requires (r, found.recips) == GetRecipQueue(s.recips, entries, addr, now) && found == s.(recips := found.recips)
    requires r.Some? ==> r.value < |found.recips|
    requires s' == if r.Some? then Queued(found, r.value, now)
                   else found.(count := found.count + 1, failureCount := found.failureCount + 1)
    ensures (s', r.Some?) == AddOne(s, entries, addr, now)
  {
  }

  /** msg_addMessage. */
  function AddMessage(s: Store, entries: seq<NsapIndex.Profile>, addrs: seq<Uint32>, now: nat): (Store, bool) {
    var (s', queued) := AddAll(s, entries, addrs, 0, now);
    (s'.(totalCount := s'.totalCount + queued), queued > 0)
  }

  lemma {:induction false} GetRecipQueueKeeps(s: Store, entries: seq<NsapIndex.Profile>, addr: Uint32, now: nat)
    requires Inv(s, now)
    ensures var (r, recips) := GetRecipQueue(s.recips, entries, addr, now);
            Inv(s.(recips := recips), now) && (r.Some? ==> r.value < |recips| && recips[r.value].addr == addr)
  {
    var f := Find(s.recips, addr);
    if f.None? && SubscriberNsap(entries, addr).Some? {
      var q := NewRecip(addr, SubscriberNsap(entries, addr).value, now);
      NewKeeps(addr, q.nsap, now);
      var recips := [q] + s.recips;
      assert forall i :: 0 < i < |recips| ==> recips[i] == s.recips[i - 1];
    }
  }

  /** A recipient has a queue or is given one exactly when it had one or a subscriber has the address. */
  lemma {:induction false} QueueExists(recips: seq<Recip>, entries: seq<NsapIndex.Profile>, addr: Uint32, now: nat)
    ensures GetRecipQueue(recips, entries, addr, now).0.Some? <==>
            (exists i :: 0 <= i < |recips| && recips[i].addr == addr)
            || (exists i :: 0 <= i < |entries| && entries[i].address == Some(addr))
  {
    var f := Find(recips, addr);
    if f.Some? {
      assert recips[f.value].addr == addr;
    }
  }

  /** The copy is counted as queued or as failed. */
  lemma AddOneCounts(s: Store, entries: seq<NsapIndex.Profile>, addr: Uint32, now: nat)
    ensures var (s', ok) := AddOne(s, entries, addr, now);
            && (ok <==> GetRecipQueue(s.recips, entries, addr, now).0.Some?)
            && s'.count == s.count + 1 && s'.totalCount == s.totalCount
            && s'.failureCount == s.failureCount + if ok then 0 else 1
  {
  }

  /** Queues stay in order, one per address. */
  lemma AddOneKeeps(s: Store, entries: seq<NsapIndex.Profile>, addr: Uint32, now: nat)
    requires Inv(s, now)
    ensures Inv(AddOne(s, entries, addr, now).0, now)
  {
    GetRecipQueueKeeps(s, entries, addr, now);
    var (r, recips) := GetRecipQueue(s.recips, entries, addr, now);
    if r.Some? {
      AddKeeps(recips[r.value], now);
    }
  }

  lemma {:induction false} AddAllKeeps(s: Store, entries: seq<NsapIndex.Profile>, addrs: seq<Uint32>, queued: nat, now: nat)
    requires Inv(s, now)
    ensures Inv(AddAll(s, entries, addrs, queued, now).0, now)
    decreases |addrs|
  {
    if addrs == [] || queued >= MOST_RECIPIENTS {
      AddAllEnds(s, entries, addrs, queued, now);
    } else {
      var r := if addrs[0] == 0 then (s, false) else AddOne(s, entries, addrs[0], now);
      if addrs[0] != 0 {
        AddOneKeeps(s, entries, addrs[0], now);
      }
      AddAllStep(s, entries, addrs, queued, now);
      AddAllKeeps(r.0, entries, addrs[1..], queued + if r.1 then 1 else 0, now);
    }
  }

  lemma AddAllEnds(s: Store, entries: seq<NsapIndex.Profile>, addrs: seq<Uint32>, queued: nat, now: nat)
    requires addrs == [] || queued >= MOST_RECIPIENTS
    ensures AddAll(s, entries, addrs, queued, now) == (s, queued)
  {
  }

  lemma AddAllStep(s: Store, entries: seq<NsapIndex.Profile>, addrs: seq<Uint32>, queued: nat, now: nat)
    requires addrs != [] && queued < MOST_RECIPIENTS
    ensures var r := if addrs[0] == 0 then (s, false) else AddOne(s, entries, addrs[0], now);
            AddAll(s, entries, addrs, queued, now) ==
            AddAll(r.0, entries, addrs[1..], queued + if r.1 then 1 else 0, now)
  {
  }

  /** What is counted is queued or failed, and no more than MOST_RECIPIENTS copies are queued. */
  lemma {:induction false} AddAllCounts(s: Store, entries: seq<NsapIndex.Profile>, addrs: seq<Uint32>, queued: nat, now: nat)
    requires queued <= MOST_RECIPIENTS
    ensures var (s', queued') := AddAll(s, entries, addrs, queued, now);
            && queued <= queued' <= MOST_RECIPIENTS && s'.totalCount == s.totalCount
            && s'.count - s'.failureCount - queued' == s.count - s.failureCount - queued
    decreases |addrs|
  {
    if addrs != [] && queued < MOST_RECIPIENTS {
      if addrs[0] == 0 {
        AddAllCounts(s, entries, addrs[1..], queued, now);
      } else {
        AddOneCounts(s, entries, addrs[0], now);
        var (s', ok) := AddOne(s, entries, addrs[0], now);
        AddAllCounts(s', entries, addrs[1..], queued + if ok then 1 else 0, now);
      }
    }
  }

  /** Every message counted was queued or counted as a failure, before and after. */
  lemma AddMessageBalances(s: Store, entries: seq<NsapIndex.Profile>, addrs: seq<Uint32>, now: nat)
    requires Inv(s, now) && s.count == s.totalCount + s.failureCount
    ensures var (s', _) := AddMessage(s, entries, addrs, now);
            Inv(s', now) && s'.count == s'.totalCount + s'.failureCount
  {
    AddAllKeeps(s, entries, addrs, 0, now);
    AddAllCounts(s, entries, addrs, 0, now);
  }

  // ---------- choosing ----------

  /** The first queue msg_getMessage takes a message from. */
  function Choose(recips: seq<Recip>, now: nat): (r: Option<nat>)
    ensures r.Some? ==> r.value < |recips| && Eligible(recips[r.value], now).Some?
    ensures r.Some? ==> forall i :: 0 <= i < r.value ==> Eligible(recips[i], now).None?
    ensures r.None? ==> forall i :: 0 <= i < |recips| ==> Eligible(recips[i], now).None?
  {
    if recips == [] then None
    else if Eligible(recips[0], now).Some? then Some(0)
    else match Choose(recips[1..], now) case None => None case Some(i) => Some(i + 1)
  }

  function CleanEach(recips: seq<Recip>, now: nat): (cleaned: seq<Recip>)
    ensures |cleaned| == |recips| && forall i :: 0 <= i < |recips| ==> cleaned[i] == Clean(recips[i], now)
  {
    seq(|recips|, i requires 0 <= i < |recips| => Clean(recips[i], now))
  }

  /** msg_cleanQueue; a dump request overrides the interval. */
  function CleanQueue(s: Store, now: nat, dump: bool): Store {
    if now < s.lastClean + CLEAN_INTERVAL && !dump then s
    else s.(recips := CleanEach(s.recips, now), lastClean := now)
  }

  /** A message is taken from the first queue that has one to deliver. */
  function Take(s: Store, now: nat): (Option<nat>, Store) {
    match Choose(s.recips, now)
    case None => (None, s.(lastAttempt := now, nextAttempt := now + IDLE_WAIT))
    case Some(i) =>
      (Some(i), s.(recips := s.recips[i := HandOut(s.recips[i], Eligible(s.recips[i], now).value, now)],
                   lastAttempt := now, nextAttempt := now))
  }

  /** msg_getMessage: the queue a message was taken from, if any. */
  function GetMessage(s: Store, now: nat, dump: bool): (Option<nat>, Store) {
    var c := CleanQueue(s, now, dump);
    if c.nextAttempt > now then (None, c) else Take(c, now)
  }

  lemma CleanQueueKeeps(s: Store, now: nat, dump: bool)
    requires Inv(s, now)
    ensures Inv(CleanQueue(s, now, dump), now)
  {
    forall i | 0 <= i < |s.recips| ensures Queue.Inv(Clean(s.recips[i], now), now) {
      CleanKeeps(s.recips[i], now);
    }
  }

  lemma GetMessageKeeps(s: Store, now: nat, dump: bool)
    requires Inv(s, now)
    ensures Inv(GetMessage(s, now, dump).1, now)
  {
    CleanQueueKeeps(s, now, dump);
    var c := CleanQueue(s, now, dump);
    var r := Choose(c.recips, now);
    if c.nextAttempt <= now && r.Some? {
      HandOutKeeps(c.recips[r.value], Eligible(c.recips[r.value], now).value, now);
    }
  }

  /** msg_deliverNow: the queues of a device with something in them are due at once. */
  function DeliverNow(s: Store, nsap: Nsap, now: nat): Store {
    s.(recips := seq(|s.recips|, i requires 0 <= i < |s.recips| =>
      if s.recips[i].nsap == nsap then Queue.DeliverNow(s.recips[i], now) else s.recips[i]))
  }

  // ---------- one pass of the scheduler ----------

  datatype Started = Started(addr: Uint32, number: nat)

  /** For every queue that is ready, due and holds a pending message: its first pending message. */
  function ToStart(recips: seq<Recip>, now: nat): seq<Started> {
    if recips == [] then []
    else
      (match Eligible(recips[0], now)
       case None => []
       case Some(i) => [Started(recips[0].addr, recips[0].msgs[i].number)])
      + ToStart(recips[1..], now)
  }

  lemma {:induction false} FirstToStart(recips: seq<Recip>, i: nat, q: Recip, now: nat)
    requires i < |recips| && Eligible(recips[i], now).Some? && Eligible(q, now).None?
    requires forall j :: 0 <= j < i ==> Eligible(recips[j], now).None?
    ensures ToStart(recips, now) ==
            [Started(recips[i].addr, recips[i].msgs[Eligible(recips[i], now).value].number)] + ToStart(recips[i := q], now)
  {
    if i == 0 {
      assert recips[i := q][1..] == recips[1..];
    } else {
      assert recips[i := q][1..] == recips[1..][i - 1 := q];
      FirstToStart(recips[1..], i - 1, q, now);
    }
  }

  lemma {:induction false} NoneToStart(recips: seq<Recip>, now: nat)
    requires forall j :: 0 <= j < |recips| ==> Eligible(recips[j], now).None?
    ensures ToStart(recips, now) == []
  {
    if recips != [] {
      NoneToStart(recips[1..], now);
    }
  }

  /** After a call at this time, a further call at the same time cleans nothing. */
  predicate Cleaned(s: Store, now: nat) { now < s.lastClean + CLEAN_INTERVAL }

  /** A message handed out leaves the front of what is left to start. */
  lemma GetMessageTakesFirst(s: Store, now: nat)
    requires Cleaned(s, now) && s.nextAttempt <= now
    ensures var (r, s') := GetMessage(s, now, false);
            && Cleaned(s', now)
            && (r.None? ==> ToStart(s.recips, now) == [] && s'.recips == s.recips)
            && (r.Some? ==> r.value < |s.recips| && Eligible(s.recips[r.value], now).Some?
                            && s'.nextAttempt <= now
                            && ToStart(s.recips, now) == [StartedFrom(s, r.value, now)] + ToStart(s'.recips, now))
  {
    var r := Choose(s.recips, now);
    if r.Some? {
      var q := s.recips[r.value];
      FirstToStart(s.recips, r.value, HandOut(q, Eligible(q, now).value, now), now);
    } else {
      NoneToStart(s.recips, now);
    }
  }

  function StartedFrom(s: Store, i: nat, now: nat): Started
    requires i < |s.recips| && Eligible(s.recips[i], now).Some?
  {
    Started(s.recips[i].addr, s.recips[i].msgs[Eligible(s.recips[i], now).value].number)
  }

  /** Message j of queue i could not be prepared and is deleted. */
  function GiveUp(s: Store, i: nat, j: nat, now: nat): Store
    requires i < |s.recips| && j < |s.recips[i].msgs|
  {
    s.(recips := s.recips[i := Delete(s.recips[i], j, now)])
  }

  /**
   The loop of mts_tryDelivery at a fixed clock: deliveries are started until no message is left or one cannot
   be prepared. `prepares` says which messages can be.
   */
  function Pass(s: Store, now: nat, prepares: set<Started>): (seq<Started>, Store)
    requires Cleaned(s, now) && s.nextAttempt <= now
    decreases |ToStart(s.recips, now)|
  {
    GetMessageTakesFirst(s, now);
    match GetMessage(s, now, false)
    case (None, s') => ([], s')
    case (Some(i), s') =>
      var started := StartedFrom(s, i, now);
      if started !in prepares then ([], GiveUp(s', i, Eligible(s.recips[i], now).value, now))
      else
        var (more, s'') := Pass(s', now, prepares);
        ([started] + more, s'')
  }

  /** mts_tryDelivery: clean if it is time to, then start what there is to start. */
  function TryDelivery(s: Store, now: nat, dump: bool, prepares: set<Started>): (seq<Started>, Store) {
    var c := CleanQueue(s, now, dump);
    if c.nextAttempt > now then ([], c) else Pass(c, now, prepares)
  }

  /** Message j of queue i was handed out: a delivery begins, or it cannot be prepared and is deleted. */
  function Prepared(s: Store, i: nat, j: nat, now: nat, prepares: set<Started>): (Option<Started>, Store)
    requires i < |s.recips| && j < |s.recips[i].msgs|
  {
    var started := Started(s.recips[i].addr, s.recips[i].msgs[j].number);
    if started in prepares then (Some(started), s) else (None, GiveUp(s, i, j, now))
  }

  /** One turn of the loop of mts_tryDelivery: the delivery it begins, or None when the loop ends. */
  function Turn(s: Store, now: nat, dump: bool, prepares: set<Started>): (Option<Started>, Store) {
    var c := CleanQueue(s, now, dump);
    if c.nextAttempt > now then (None, c)
    else
      match Choose(c.recips, now)
      case None => (None, Take(c, now).1)
      case Some(i) => Prepared(Take(c, now).1, i, Eligible(c.recips[i], now).value, now, prepares)
  }

  /** A turn is to get a message and to prepare it. */
  lemma TurnIs(s: Store, now: nat, dump: bool, prepares: set<Started>, i: nat, j: nat)
    requires var r := GetMessage(s, now, dump).0;
             r.Some? ==> r.value == i < |CleanQueue(s, now, dump).recips| && Some(j) == Eligible(CleanQueue(s, now, dump).recips[i], now)
    ensures var (r, s') := GetMessage(s, now, dump);
            if r.None? then Turn(s, now, dump, prepares) == (None, s')
            else
              && i < |s'.recips| && j < |s'.recips[i].msgs|
              && Turn(s, now, dump, prepares) == Prepared(s', i, j, now, prepares)
  {
  }

  /** The turns of the loop make up mts_tryDelivery, and there are only so many. */
  lemma TurnByTurn(s: Store, now: nat, dump: bool, prepares: set<Started>)
    ensures var (item, s') := Turn(s, now, dump, prepares);
            var rest := TryDelivery(s', now, false, prepares);
            if item.None? then TryDelivery(s, now, dump, prepares) == ([], s')
            else
              && TryDelivery(s, now, dump, prepares) == ([item.value] + rest.0, rest.1)
              && TurnsLeft(s', now, false) < TurnsLeft(s, now, dump)
  {
    var c := CleanQueue(s, now, dump);
    assert Cleaned(c, now) && CleanQueue(c, now, false) == c;
    if c.nextAttempt <= now {
      GetMessageTakesFirst(c, now);
    }
  }

  function TurnsLeft(s: Store, now: nat, dump: bool): nat {
    |ToStart(CleanQueue(s, now, dump).recips, now)|
  }

  lemma {:induction false} TurnKeeps(s: Store, now: nat, dump: bool, prepares: set<Started>)
    requires Inv(s, now) && now > 0
    ensures Inv(Turn(s, now, dump, prepares).1, now)
  {
    GetMessageKeeps(s, now, dump);
    var c := CleanQueue(s, now, dump);
    var r := Choose(c.recips, now);
    if c.nextAttempt <= now && r.Some? && StartedFrom(c, r.value, now) !in prepares {
      GiveUpKeeps(Take(c, now).1, r.value, Eligible(c.recips[r.value], now).value, now);
    }
  }

  /** One pass keeps every queue in order, and what it deletes it has just handed out. */
  lemma {:induction false} PassKeeps(s: Store, now: nat, prepares: set<Started>)
    requires Cleaned(s, now) && s.nextAttempt <= now && Inv(s, now) && now > 0
    ensures Inv(Pass(s, now, prepares).1, now)
    decreases |ToStart(s.recips, now)|
  {
    GetMessageTakesFirst(s, now);
    GetMessageKeeps(s, now, false);
    var (r, s') := GetMessage(s, now, false);
    if r.Some? {
      if StartedFrom(s, r.value, now) in prepares {
        PassKeeps(s', now, prepares);
      } else {
        GiveUpKeeps(s', r.value, Eligible(s.recips[r.value], now).value, now);
      }
    }
  }

  /** A pass counts nothing. */
  lemma {:induction false} PassCounts(s: Store, now: nat, prepares: set<Started>)
    requires Cleaned(s, now) && s.nextAttempt <= now
    ensures var s' := Pass(s, now, prepares).1;
            s'.count == s.count && s'.totalCount == s.totalCount && s'.failureCount == s.failureCount
    decreases |ToStart(s.recips, now)|
  {
    GetMessageTakesFirst(s, now);
    var (r, s') := GetMessage(s, now, false);
    if r.Some? && StartedFrom(s, r.value, now) in prepares {
      PassCounts(s', now, prepares);
    }
  }

  lemma GiveUpKeeps(s: Store, i: nat, j: nat, now: nat)
    requires Inv(s, now) && now > 0 && i < |s.recips| && InFlight(s.recips[i], j)
    ensures Inv(GiveUp(s, i, j, now), now)
  {
    DeleteKeeps(s.recips[i], j, now);
    assert Delete(s.recips[i], j, now).addr == s.recips[i].addr;
  }

  /**
   A pass that can prepare every message starts exactly one delivery for each queue that is ready,
   due and holds a pending message, in the order of the queues, and leaves none behind.
   */
  lemma {:induction false} PassStartsEach(s: Store, now: nat, prepares: set<Started>)
    requires Cleaned(s, now) && s.nextAttempt <= now
    requires forall x :: x in ToStart(s.recips, now) ==> x in prepares
    ensures Pass(s, now, prepares).0 == ToStart(s.recips, now)
    ensures ToStart(Pass(s, now, prepares).1.recips, now) == []
    decreases |ToStart(s.recips, now)|
  {
    GetMessageTakesFirst(s, now);
    var (r, s') := GetMessage(s, now, false);
    if r.Some? {
      assert StartedFrom(s, r.value, now) in ToStart(s.recips, now);
      PassStartsEach(s', now, prepares);
    }
  }

  /** No pass starts two deliveries for one recipient. */
  lemma PassStartsOnePerRecipient(s: Store, now: nat, prepares: set<Started>, i: nat, j: nat)
    requires Cleaned(s, now) && s.nextAttempt <= now && Inv(s, now)
    requires i < j < |Pass(s, now, prepares).0|
    ensures Pass(s, now, prepares).0[i].addr != Pass(s, now, prepares).0[j].addr
  {
    PassIsPrefix(s, now, prepares);
    assert Pass(s, now, prepares).0[i] == ToStart(s.recips, now)[i];
    assert Pass(s, now, prepares).0[j] == ToStart(s.recips, now)[j];
    ToStartDistinct(s.recips, now, i, j);
  }

  /** A pass starts what there is to start up to the first message that cannot be prepared. */
  lemma {:induction false} PassIsPrefix(s: Store, now: nat, prepares: set<Started>)
    requires Cleaned(s, now) && s.nextAttempt <= now
    ensures Pass(s, now, prepares).0 <= ToStart(s.recips, now)
    ensures var n := |Pass(s, now, prepares).0|;
            n < |ToStart(s.recips, now)| ==> ToStart(s.recips, now)[n] !in prepares
    decreases |ToStart(s.recips, now)|
  {
    GetMessageTakesFirst(s, now);
    var (r, s') := GetMessage(s, now, false);
    if r.Some? && StartedFrom(s, r.value, now) in prepares {
      PassIsPrefix(s', now, prepares);
    }
  }

  lemma {:induction false} StartedAddr(recips: seq<Recip>, now: nat, i: nat)
    requires i < |ToStart(recips, now)|
    ensures exists k :: 0 <= k < |recips| && recips[k].addr == ToStart(recips, now)[i].addr
  {
    if Eligible(recips[0], now).Some? && i == 0 {
    } else {
      var i' := if Eligible(recips[0], now).Some? then i - 1 else i;
      StartedAddr(recips[1..], now, i');
      var k :| 0 <= k < |recips[1..]| && recips[1..][k].addr == ToStart(recips[1..], now)[i'].addr;
      assert recips[k + 1] == recips[1..][k];
    }
  }

  lemma {:induction false} ToStartDistinct(recips: seq<Recip>, now: nat, i: nat, j: nat)
    requires forall k, l :: 0 <= k < l < |recips| ==> recips[k].addr != recips[l].addr
    requires i < j < |ToStart(recips, now)|
    ensures ToStart(recips, now)[i].addr != ToStart(recips, now)[j].addr
  {
    var rest := recips[1..];
    if Eligible(recips[0], now).None? {
      ToStartDistinct(rest, now, i, j);
    } else if i > 0 {
      ToStartDistinct(rest, now, i - 1, j - 1);
    } else {
      StartedAddr(rest, now, j - 1);
      var k :| 0 <= k < |rest| && rest[k].addr == ToStart(rest, now)[j - 1].addr;
      assert recips[k + 1] == rest[k];
    }
  }
}
