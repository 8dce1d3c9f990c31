/**
 What msg_addMessage does to the lists (msgstore.c): which recipients get the message, and what
 every queue looks like afterwards, said without the steps that lead there.
 */
module Adding {
  import opened Common
  import opened Queue
  import opened Queues = Store
  import NsapIndex

  /** The queue of an address. */
  function QueueOf(recips: seq<Recip>, addr: Uint32): Option<Recip> {
    if recips == [] then None
    else if recips[0].addr == addr then Some(recips[0])
    else QueueOf(recips[1..], addr)
  }

  /** The messages queued for an address, delivered or not. */
  function ListOf(recips: seq<Recip>, addr: Uint32): seq<Msg> {
    if QueueOf(recips, addr).Some? then QueueOf(recips, addr).value.msgs else []
  }

  /** A message can be queued for an address: it has a queue, or is the address of a subscriber. */
  ghost predicate Reachable(recips: seq<Recip>, entries: seq<NsapIndex.Profile>, addr: Uint32) {
    && addr != 0
    && ((exists i :: 0 <= i < |recips| && recips[i].addr == addr) || (exists i :: 0 <= i < |entries| && entries[i].address == Some(addr)))
  }

  /** The recipients that get a copy: the first `room` of those that can. */
  ghost function Taken(recips: seq<Recip>, entries: seq<NsapIndex.Profile>, addrs: seq<Uint32>, room: nat): seq<Uint32>
    decreases |addrs|
  {
    if addrs == [] || room == 0 then []
    else if Reachable(recips, entries, addrs[0]) then [addrs[0]] + Taken(recips, entries, addrs[1..], room - 1)
    else Taken(recips, entries, addrs[1..], room)
  }

  /** How many recipients are given up: EMSD addresses met before there is no more room that cannot get a copy. */
  ghost function Missed(recips: seq<Recip>, entries: seq<NsapIndex.Profile>, addrs: seq<Uint32>, room: nat): nat
    decreases |addrs|
  {
    if addrs == [] || room == 0 then 0
    else if Reachable(recips, entries, addrs[0]) then Missed(recips, entries, addrs[1..], room - 1)
    else Missed(recips, entries, addrs[1..], room) + if addrs[0] != 0 then 1 else 0
  }

  function Times(addr: Uint32, taken: seq<Uint32>): nat {
    if taken == [] then 0 else (if taken[0] == addr then 1 else 0) + Times(addr, taken[1..])
  }

  // ---------- one queue ----------

  function NewMessages(first: nat, n: nat, now: nat): (msgs: seq<Msg>)
    ensures |msgs| == n
  {
    seq(n, j requires j >= 0 => Msg(first + j, MQ_READY, 0, 0, now + EXPIRY, 0))
  }

  /** A queue with n new messages at its end. */
  function WithMore(q: Recip, n: nat, now: nat): Recip {
    if n == 0 then q
    else
      q.(msgs := q.msgs + NewMessages(q.added, n, now), count := q.count + n, added := q.added + n,
         status := if q.status.RQ_EMPTY? then RQ_READY else q.status,
         nextAttempt := if 0 < q.nextAttempt <= now + 30 then q.nextAttempt else now)
  }

  lemma {:induction false} AddIsOneMore(q: Recip, now: nat)
    ensures Add(q, now) == WithMore(q, 1, now)
  {
    assert NewMessages(q.added, 1, now) == [Msg(q.added, MQ_READY, 0, 0, now + EXPIRY, 0)];
  }

  lemma {:induction false} MoreAndMore(q: Recip, n: nat, now: nat)
    ensures WithMore(WithMore(q, 1, now), n, now) == WithMore(q, n + 1, now)
  {
    assert NewMessages(q.added, n + 1, now) == NewMessages(q.added, 1, now) + NewMessages(q.added + 1, n, now);
    assert q.msgs + NewMessages(q.added, n + 1, now) == q.msgs + NewMessages(q.added, 1, now) + NewMessages(q.added + 1, n, now);
    assert q.msgs + NewMessages(q.added, 1, now) + [] == q.msgs + NewMessages(q.added, 1, now);
  }

  // ---------- among all queues ----------

  /** What hangs on an address once it got n messages; a queue made for it is that of its first subscriber. */
  function After(recips: seq<Recip>, entries: seq<NsapIndex.Profile>, addr: Uint32, n: nat, now: nat): Option<Recip> {
    if n == 0 then QueueOf(recips, addr)
    else if QueueOf(recips, addr).Some? then Some(WithMore(QueueOf(recips, addr).value, n, now))
    else
      match SubscriberNsap(entries, addr)
      case None => None
      case Some(nsap) => Some(WithMore(NewRecip(addr, nsap, now), n, now))
  }

  lemma {:induction false} FindIsQueueOf(recips: seq<Recip>, addr: Uint32)
    ensures QueueOf(recips, addr) == match Find(recips, addr) case None => None case Some(i) => Some(recips[i])
  {
    if recips != [] && recips[0].addr != addr {
      FindIsQueueOf(recips[1..], addr);
    }
  }

  lemma {:induction false} Replaced(recips: seq<Recip>, i: nat, q: Recip, addr: Uint32)
    requires i < |recips| && Find(recips, q.addr) == Some(i)
    ensures QueueOf(recips[i := q], addr) == if addr == q.addr then Some(q) else QueueOf(recips, addr)
  {
    if i > 0 {
      assert recips[i := q][1..] == recips[1..][i - 1 := q];
      Replaced(recips[1..], i - 1, q, addr);
    } else {
      assert recips[i := q][1..] == recips[1..];
    }
  }

  lemma {:induction false} ReachableExactly(recips: seq<Recip>, entries: seq<NsapIndex.Profile>, addr: Uint32)
    ensures Reachable(recips, entries, addr) <==> addr != 0 && (QueueOf(recips, addr).Some? || SubscriberNsap(entries, addr).Some?)
  {
    FindIsQueueOf(recips, addr);
    if Find(recips, addr).Some? {
      assert recips[Find(recips, addr).value].addr == addr;
    }
  }

  /** One copy: the address's queue gets one message, and every other queue stays. */
  lemma {:induction false} OneCopy(s: Store, entries: seq<NsapIndex.Profile>, addr: Uint32, now: nat, b: Uint32)
    requires Reachable(s.recips, entries, addr)
    ensures AddOne(s, entries, addr, now).1
    ensures QueueOf(AddOne(s, entries, addr, now).0.recips, b) == After(s.recips, entries, b, if b == addr then 1 else 0, now)
  {
    ReachableExactly(s.recips, entries, addr);
    FindIsQueueOf(s.recips, addr);
    match Find(s.recips, addr)
    case Some(i) =>
      AddIsOneMore(s.recips[i], now);
      Replaced(s.recips, i, Add(s.recips[i], now), b);
    case None =>
      var q := NewRecip(addr, SubscriberNsap(entries, addr).value, now);
      AddIsOneMore(q, now);
      assert ([q] + s.recips)[1..] == s.recips;
      assert ([q] + s.recips)[0 := Add(q, now)] == [Add(q, now)] + s.recips;
      assert ([Add(q, now)] + s.recips)[1..] == s.recips;
  }

  lemma {:induction false} NoCopy(s: Store, entries: seq<NsapIndex.Profile>, addr: Uint32, now: nat)
    requires !Reachable(s.recips, entries, addr) && addr != 0
    ensures AddOne(s, entries, addr, now) == (s.(count := s.count + 1, failureCount := s.failureCount + 1), false)
  {
    ReachableExactly(s.recips, entries, addr);
    FindIsQueueOf(s.recips, addr);
  }

  /** A copy opens no other address, and closes none. */
  lemma {:induction false} StillReachable(s: Store, entries: seq<NsapIndex.Profile>, addr: Uint32, now: nat, b: Uint32)
    requires Reachable(s.recips, entries, addr)
    ensures Reachable(AddOne(s, entries, addr, now).0.recips, entries, b) <==> Reachable(s.recips, entries, b)
  {
    OneCopy(s, entries, addr, now, b);
    ReachableExactly(s.recips, entries, b);
    ReachableExactly(AddOne(s, entries, addr, now).0.recips, entries, b);
    ReachableExactly(s.recips, entries, addr);
  }

  lemma {:induction false} SameTaken(recips: seq<Recip>, recips': seq<Recip>, entries: seq<NsapIndex.Profile>, addrs: seq<Uint32>, room: nat)
    requires forall b :: Reachable(recips', entries, b) <==> Reachable(recips, entries, b)
    ensures Taken(recips', entries, addrs, room) == Taken(recips, entries, addrs, room)
    ensures Missed(recips', entries, addrs, room) == Missed(recips, entries, addrs, room)
    decreases |addrs|
  {
    if addrs != [] && room > 0 {
      SameTaken(recips, recips', entries, addrs[1..], if Reachable(recips, entries, addrs[0]) then room - 1 else room);
    }
  }

  /** A copy changes nothing of who else gets one. */
  lemma {:induction false} CopyKeepsTaken(s: Store, entries: seq<NsapIndex.Profile>, addr: Uint32, now: nat, addrs: seq<Uint32>, room: nat)
    requires Reachable(s.recips, entries, addr)
    ensures var s' := AddOne(s, entries, addr, now).0;
            && Taken(s'.recips, entries, addrs, room) == Taken(s.recips, entries, addrs, room)
            && Missed(s'.recips, entries, addrs, room) == Missed(s.recips, entries, addrs, room)
  {
    var s' := AddOne(s, entries, addr, now).0;
    forall x ensures Reachable(s'.recips, entries, x) <==> Reachable(s.recips, entries, x) {
      StillReachable(s, entries, addr, now, x);
    }
    SameTaken(s.recips, s'.recips, entries, addrs, room);
  }

  lemma {:induction false} AfterMore(recips: seq<Recip>, recips': seq<Recip>, entries: seq<NsapIndex.Profile>, addr: Uint32, b: Uint32, n: nat, now: nat)
    requires Reachable(recips, entries, addr)
    requires QueueOf(recips', b) == After(recips, entries, b, if b == addr then 1 else 0, now)
    ensures After(recips', entries, b, n, now) == After(recips, entries, b, n + if b == addr then 1 else 0, now)
  {
    ReachableExactly(recips, entries, addr);
    if b == addr {
      var q := if QueueOf(recips, b).Some? then QueueOf(recips, b).value else NewRecip(b, SubscriberNsap(entries, b).value, now);
      MoreAndMore(q, n, now);
    }
  }

  /** One recipient of the loop, and the rest of them. */
  ghost predicate FirstOf(s: Store, entries: seq<NsapIndex.Profile>, addrs: seq<Uint32>, queued: nat, now: nat, s': Store, ok: bool) {
    && addrs != [] && queued < MOST_RECIPIENTS
    && (ok <==> Reachable(s.recips, entries, addrs[0]))
    && (!ok ==> s'.recips == s.recips)
    && AddAll(s, entries, addrs, queued, now) == AddAll(s', entries, addrs[1..], queued + if ok then 1 else 0, now)
    && s'.totalCount == s.totalCount
    && s'.count == s.count + (if addrs[0] != 0 then 1 else 0)
    && s'.failureCount == s.failureCount + (if addrs[0] != 0 && !ok then 1 else 0)
    && var room := MOST_RECIPIENTS - queued;
       if ok then
         && Taken(s.recips, entries, addrs, room) == [addrs[0]] + Taken(s'.recips, entries, addrs[1..], room - 1)
         && Missed(s.recips, entries, addrs, room) == Missed(s'.recips, entries, addrs[1..], room - 1)
       else
         && Taken(s.recips, entries, addrs, room) == Taken(s'.recips, entries, addrs[1..], room)
         && Missed(s.recips, entries, addrs, room) == Missed(s'.recips, entries, addrs[1..], room) + if addrs[0] != 0 then 1 else 0
  }

  lemma {:induction false} FirstTaken(s: Store, entries: seq<NsapIndex.Profile>, addrs: seq<Uint32>, queued: nat, now: nat)
    requires addrs != [] && queued < MOST_RECIPIENTS && Reachable(s.recips, entries, addrs[0])
    ensures FirstOf(s, entries, addrs, queued, now, AddOne(s, entries, addrs[0], now).0, true)
  {
    OneCopy(s, entries, addrs[0], now, 0);
    AddOneCounts(s, entries, addrs[0], now);
    AddAllStep(s, entries, addrs, queued, now);
    CopyKeepsTaken(s, entries, addrs[0], now, addrs[1..], MOST_RECIPIENTS - queued - 1);
  }

  lemma {:induction false} FirstMissed(s: Store, entries: seq<NsapIndex.Profile>, addrs: seq<Uint32>, queued: nat, now: nat)
    requires addrs != [] && queued < MOST_RECIPIENTS && !Reachable(s.recips, entries, addrs[0])
    ensures FirstOf(s, entries, addrs, queued, now, if addrs[0] == 0 then s else AddOne(s, entries, addrs[0], now).0, false)
  {
    if addrs[0] != 0 {
      NoCopy(s, entries, addrs[0], now);
    }
    AddAllStep(s, entries, addrs, queued, now);
  }

  /** What the loop counts. */
  lemma {:induction false} CopiesCounted(s: Store, entries: seq<NsapIndex.Profile>, addrs: seq<Uint32>, queued: nat, now: nat)
    requires queued <= MOST_RECIPIENTS
    ensures var (s', queued') := AddAll(s, entries, addrs, queued, now);
            var taken := Taken(s.recips, entries, addrs, MOST_RECIPIENTS - queued);
            var missed := Missed(s.recips, entries, addrs, MOST_RECIPIENTS - queued);
            && queued' == queued + |taken| && s'.totalCount == s.totalCount
            && s'.count == s.count + |taken| + missed && s'.failureCount == s.failureCount + missed
    decreases |addrs|
  {
    if addrs != [] && queued < MOST_RECIPIENTS {
      if Reachable(s.recips, entries, addrs[0]) {
        FirstTaken(s, entries, addrs, queued, now);
        CopiesCounted(AddOne(s, entries, addrs[0], now).0, entries, addrs[1..], queued + 1, now);
      } else {
        FirstMissed(s, entries, addrs, queued, now);
        CopiesCounted(if addrs[0] == 0 then s else AddOne(s, entries, addrs[0], now).0, entries, addrs[1..], queued, now);
      }
    }
  }

  /** The loop over the recipients: every address's queue gets as many messages as its address was taken. */
  lemma {:induction false} AllCopies(s: Store, entries: seq<NsapIndex.Profile>, addrs: seq<Uint32>, queued: nat, now: nat, b: Uint32)
    requires queued <= MOST_RECIPIENTS
    ensures var taken := Taken(s.recips, entries, addrs, MOST_RECIPIENTS - queued);
            QueueOf(AddAll(s, entries, addrs, queued, now).0.recips, b) == After(s.recips, entries, b, Times(b, taken), now)
    decreases |addrs|
  {
    if addrs != [] && queued < MOST_RECIPIENTS {
      if Reachable(s.recips, entries, addrs[0]) {
        var s' := AddOne(s, entries, addrs[0], now).0;
        FirstTaken(s, entries, addrs, queued, now);
        AllCopies(s', entries, addrs[1..], queued + 1, now, b);
        OneCopy(s, entries, addrs[0], now, b);
        AfterMore(s.recips, s'.recips, entries, addrs[0], b, Times(b, Taken(s'.recips, entries, addrs[1..], MOST_RECIPIENTS - queued - 1)), now);
      } else {
        FirstMissed(s, entries, addrs, queued, now);
        AllCopies(if addrs[0] == 0 then s else AddOne(s, entries, addrs[0], now).0, entries, addrs[1..], queued, now, b);
      }
    }
  }

  lemma {:induction false} TakenReachable(recips: seq<Recip>, entries: seq<NsapIndex.Profile>, addrs: seq<Uint32>, room: nat, b: Uint32)
    ensures Times(b, Taken(recips, entries, addrs, room)) > 0 ==> Reachable(recips, entries, b)
    decreases |addrs|
  {
    if addrs != [] && room > 0 {
      TakenReachable(recips, entries, addrs[1..], if Reachable(recips, entries, addrs[0]) then room - 1 else room, b);
    }
  }

  /**
   A message reaches the lists: the list of every address is as it was with one new message at its end, ready
   and with an hour to live, for every time the address is among the first recipients that can get a copy, as
   many as there is room for. What else belongs to the queue of an address that got none stays as it was.
   */
  lemma {:induction false} MessageReachesLists(s: Store, entries: seq<NsapIndex.Profile>, addrs: seq<Uint32>, now: nat, b: Uint32)
    ensures var s' := Queues.AddMessage(s, entries, addrs, now).0;
            var n := Times(b, Taken(s.recips, entries, addrs, MOST_RECIPIENTS));
            var before, after := ListOf(s.recips, b), ListOf(s'.recips, b);
            && |after| == |before| + n && after[..|before|] == before
            && (forall j :: |before| <= j < |after| ==>
                  after[j].status.MQ_READY? && after[j].completed == 0 && after[j].lastAttempt == 0
                  && after[j].failures == 0 && after[j].expiry == now + 3600)
            && (n == 0 ==> QueueOf(s'.recips, b) == QueueOf(s.recips, b))
  {
    AllCopies(s, entries, addrs, 0, now, b);
    TakenReachable(s.recips, entries, addrs, MOST_RECIPIENTS, b);
    ReachableExactly(s.recips, entries, b);
  }

  /** The queue of an address that gets n copies; their numbers go on from those given before. */
  ghost predicate Grown(q: Recip, q': Recip, n: nat, now: nat) {
    && q'.addr == q.addr && q'.nsap == q.nsap && q'.count == q.count + n && q'.added == q.added + n
    && |q'.msgs| == |q.msgs| + n && (forall j :: |q.msgs| <= j < |q'.msgs| ==> q'.msgs[j].number == q.added + j - |q.msgs|)
    && q'.successTotal == q.successTotal && q'.failureTotal == q.failureTotal && q'.failureCount == q.failureCount
    && q'.lastAttempt == q.lastAttempt && q'.trace == q.trace && q'.expired == q.expired
    && q'.status == (if q.status.RQ_EMPTY? then RQ_READY else q.status)
    && q'.nextAttempt == (if 0 < q.nextAttempt <= now + 30 then q.nextAttempt else now)
  }

  /** An address with copies has a queue afterwards: its own, grown, or one that belongs to the first subscriber with the address. */
  lemma {:induction false} QueueGrows(s: Store, entries: seq<NsapIndex.Profile>, addrs: seq<Uint32>, now: nat, b: Uint32) returns (was: Recip)
    requires Times(b, Taken(s.recips, entries, addrs, MOST_RECIPIENTS)) > 0
    ensures QueueOf(s.recips, b).Some? ==> was == QueueOf(s.recips, b).value
    ensures QueueOf(s.recips, b).None? ==>
              && was.addr == b && was.status.RQ_EMPTY? && was.msgs == [] && was.count == was.added == 0
              && was.nextAttempt == now && was.trace == [] && was.failureCount == 0
              && (exists i :: 0 <= i < |entries| && entries[i] == NsapIndex.Profile(Some(b), was.nsap)
                              && forall j :: 0 <= j < i ==> entries[j].address != Some(b))
    ensures var q' := QueueOf(Queues.AddMessage(s, entries, addrs, now).0.recips, b);
            q'.Some? && Grown(was, q'.value, Times(b, Taken(s.recips, entries, addrs, MOST_RECIPIENTS)), now)
  {
    AllCopies(s, entries, addrs, 0, now, b);
    TakenReachable(s.recips, entries, addrs, MOST_RECIPIENTS, b);
    ReachableExactly(s.recips, entries, b);
    was := if QueueOf(s.recips, b).Some? then QueueOf(s.recips, b).value else NewRecip(b, SubscriberNsap(entries, b).value, now);
  }

  /**
   The call succeeds exactly when some list grew, and counts what it queued and what it gave up.
   */
  lemma {:induction false} SucceedsExactly(s: Store, entries: seq<NsapIndex.Profile>, addrs: seq<Uint32>, now: nat)
    ensures var (s', ok) := Queues.AddMessage(s, entries, addrs, now);
            var taken := Taken(s.recips, entries, addrs, MOST_RECIPIENTS);
            var missed := Missed(s.recips, entries, addrs, MOST_RECIPIENTS);
            && (ok <==> exists b :: |ListOf(s'.recips, b)| > |ListOf(s.recips, b)|)
            && s'.totalCount == s.totalCount + |taken|
            && s'.count == s.count + |taken| + missed && s'.failureCount == s.failureCount + missed
  {
    var (s', ok) := Queues.AddMessage(s, entries, addrs, now);
    var taken := Taken(s.recips, entries, addrs, MOST_RECIPIENTS);
    CopiesCounted(s, entries, addrs, 0, now);
    if taken != [] {
      MessageReachesLists(s, entries, addrs, now, taken[0]);
      assert |ListOf(s'.recips, taken[0])| > |ListOf(s.recips, taken[0])|;
    } else {
      forall b ensures |ListOf(s'.recips, b)| == |ListOf(s.recips, b)| {
        MessageReachesLists(s, entries, addrs, now, b);
      }
    }
  }

  // ---------- when the scheduler wakes up ----------

  lemma {:induction false} WakesForOne(s: Store, entries: seq<NsapIndex.Profile>, addr: Uint32, now: nat)
    requires Reachable(s.recips, entries, addr) && now > 0
    ensures var s' := AddOne(s, entries, addr, now).0;
            && QueueOf(s'.recips, addr).Some? && 0 < s'.nextAttempt <= QueueOf(s'.recips, addr).value.nextAttempt <= now + 30
            && (s.nextAttempt > 0 ==> s'.nextAttempt <= s.nextAttempt)
  {
    OneCopy(s, entries, addr, now, addr);
    ReachableExactly(s.recips, entries, addr);
    FindIsQueueOf(s.recips, addr);
    var (r, recips) := GetRecipQueue(s.recips, entries, addr, now);
    FindIsQueueOf(recips, addr);
  }

  lemma {:induction false} NeverLater(s: Store, entries: seq<NsapIndex.Profile>, addrs: seq<Uint32>, queued: nat, now: nat)
    requires queued <= MOST_RECIPIENTS && now > 0
    ensures var s' := AddAll(s, entries, addrs, queued, now).0;
            s.nextAttempt > 0 ==> 0 < s'.nextAttempt <= s.nextAttempt
    decreases |addrs|
  {
    if addrs != [] && queued < MOST_RECIPIENTS {
      if Reachable(s.recips, entries, addrs[0]) {
        FirstTaken(s, entries, addrs, queued, now);
        WakesForOne(s, entries, addrs[0], now);
        NeverLater(AddOne(s, entries, addrs[0], now).0, entries, addrs[1..], queued + 1, now);
      } else {
        FirstMissed(s, entries, addrs, queued, now);
        if addrs[0] != 0 {
          NoCopy(s, entries, addrs[0], now);
        }
        NeverLater(if addrs[0] == 0 then s else AddOne(s, entries, addrs[0], now).0, entries, addrs[1..], queued, now);
      }
    }
  }

  lemma {:induction false} WakesInLoop(s: Store, entries: seq<NsapIndex.Profile>, addrs: seq<Uint32>, queued: nat, now: nat, b: Uint32)
    requires queued <= MOST_RECIPIENTS && now > 0 && Times(b, Taken(s.recips, entries, addrs, MOST_RECIPIENTS - queued)) > 0
    ensures var s' := AddAll(s, entries, addrs, queued, now).0;
            QueueOf(s'.recips, b).Some? && s'.nextAttempt <= QueueOf(s'.recips, b).value.nextAttempt
    decreases |addrs|
  {
    if Reachable(s.recips, entries, addrs[0]) {
      var s1 := AddOne(s, entries, addrs[0], now).0;
      FirstTaken(s, entries, addrs, queued, now);
      if Times(b, Taken(s1.recips, entries, addrs[1..], MOST_RECIPIENTS - queued - 1)) > 0 {
        WakesInLoop(s1, entries, addrs[1..], queued + 1, now, b);
      } else {
        WakesForOne(s, entries, b, now);
        NeverLater(s1, entries, addrs[1..], queued + 1, now);
        AllCopies(s1, entries, addrs[1..], queued + 1, now, b);
      }
    } else {
      FirstMissed(s, entries, addrs, queued, now);
      WakesInLoop(if addrs[0] == 0 then s else AddOne(s, entries, addrs[0], now).0, entries, addrs[1..], queued, now, b);
    }
  }

  /** The scheduler looks again no later than a queue that got the message is due, which is in 30 seconds at most. */
  lemma {:induction false} WakesInTime(s: Store, entries: seq<NsapIndex.Profile>, addrs: seq<Uint32>, now: nat, b: Uint32)
    requires now > 0 && Times(b, Taken(s.recips, entries, addrs, MOST_RECIPIENTS)) > 0
    ensures var s' := Queues.AddMessage(s, entries, addrs, now).0;
            QueueOf(s'.recips, b).Some? && s'.nextAttempt <= QueueOf(s'.recips, b).value.nextAttempt <= now + 30
  {
    WakesInLoop(s, entries, addrs, 0, now, b);
    var was := QueueGrows(s, entries, addrs, now, b);
  }
}
