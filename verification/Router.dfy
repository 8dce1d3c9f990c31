/**
 All operations of the server at once (mpreproc.c, oper.c): where an arriving segment goes, and what
 interleaved sessions do to each other.
 */
module Router {
  import opened Common
  import opened Fsm
  import opened Reassembly
  import Performer
  import Deliver
  import Cutting
  import Words
  import Address

  datatype Work = Performing(m: Performer.Machine) | Delivering(d: Deliver.Machine)

  /** What happened to an operation; `from` is the NSAP the invocation came from. */
  datatype Item = Item(from: Nsap, s: Performer.Stimulus)

  datatype Op = Op(nsap: Nsap, work: Work, hist: seq<Item>)

  /**
   `live` is the active queue, oldest first; `table` remembers the operations that were freed as well,
   `fired` for which operations segmentation timers have expired, once for each time.
   */
  datatype Server = Server(live: seq<nat>, table: map<nat, Op>, nextId: nat, fired: multiset<nat>)

  const START := Server([], map[], 1, multiset{})

  datatype Event =
    | Arrival(from: Nsap, inv: Performer.Invocation, env: Performer.Env)
    | Indication(operId: nat, event: Performer.Event, env: Performer.Env)
    | SegmentationTimer(operId: nat)
    | NewDelivery(nsap: Nsap, plan: Cutting.Plan)
    | DeliveryEvent(operId: nat, e: Deliver.Event)

  function SequenceId(op: Op): Uint32 {
    match op.work case Performing(m) => m.a.sequenceId case Delivering(d) => d.sequenceId
  }

  predicate HasKey(op: Op, nsap: Nsap, id: Uint32) {
    op.nsap == nsap && SequenceId(op) == id
  }

  predicate Matches(s: Server, k: nat, nsap: Nsap, id: Uint32) {
    k in s.table && HasKey(s.table[k], nsap, id)
  }

  /** findOperationBySequenceId: the oldest active operation with this NSAP and sequence id. */
  function Find(s: Server, live: seq<nat>, nsap: Nsap, id: Uint32): (r: Option<nat>)
    ensures r.Some? ==> r.value in live && Matches(s, r.value, nsap, id)
    ensures r.None? ==> forall k <- live :: !Matches(s, k, nsap, id)
  {
    if live == [] then None
    else if Matches(s, live[0], nsap, id) then Some(live[0])
    else Find(s, live[1..], nsap, id)
  }

  function Without(live: seq<nat>, k: nat): seq<nat> {
    if live == [] then []
    else (if live[0] == k then [] else [live[0]]) + Without(live[1..], k)
  }

  predicate Over(w: Work) {
    match w case Performing(m) => m.phase.Freed? case Delivering(d) => d.phase.Done?
  }

  /** How many segmentation timers run for operation k, active or not: freeing an operation stops none. */
  function TimersRunning(s: Server, k: nat): nat {
    if k !in s.table || s.table[k].work.Delivering? then 0
    else
      var armed := s.table[k].work.m.armed;
      if armed > s.fired[k] then armed - s.fired[k] else 0
  }

  /** How often mts_freeOperation has been called for operation k: at its end, and by each timer that expired. */
  function Frees(s: Server, k: nat): nat {
    if k !in s.table then 0 else s.fired[k] + if Over(s.table[k].work) then 1 else 0
  }

  /** The operation has changed, and leaves the active queue if that was the end of it. */
  function Put(s: Server, k: nat, op: Op): Server {
    s.(table := s.table[k := op], live := if Over(op.work) then Without(s.live, k) else s.live)
  }

  /** mts_allocOperation: at the end of the active queue. */
  function Alloc(s: Server, op: Op): Server {
    s.(live := s.live + [s.nextId], table := s.table[s.nextId := op], nextId := s.nextId + 1)
  }

  /** An event for operation k. To a delivery an invocation is an unexpected event. */
  function Dispatch(s: Server, k: nat, item: Item): Server
    requires k in s.table
  {
    var op := s.table[k];
    match op.work
    case Performing(m) =>
      Put(s, k, op.(work := Performing(Performer.Step(m, item.s.event, item.s.env)), hist := op.hist + [item]))
    case Delivering(d) =>
      Put(s, k, op.(work := Delivering(Deliver.Step(d, Performer.EvtId(item.s.event), false, 0))))
  }

  /** The invocation carries a segment other than the first. */
  predicate IsLater(inv: Performer.Invocation) {
    inv.data.Submitted? && inv.data.arg.segmentInfo.Some? && inv.data.arg.segmentInfo.value.Other?
  }

  function KeyOf(inv: Performer.Invocation): Uint32
    requires IsLater(inv)
  {
    inv.data.arg.segmentInfo.value.sequenceId
  }

  /** mts_preprocessInvokeIndication, and the event it leads to: a later segment goes to the operation found, all else to a new one. */
  function Admit(s: Server, from: Nsap, inv: Performer.Invocation, env: Performer.Env): Server {
    var item := Item(from, Performer.Stimulus(Performer.Invoked(inv), env));
    if IsLater(inv) then
      match Find(s, s.live, from, KeyOf(inv))
      case None => s
      case Some(k) => if k in s.table then Dispatch(s, k, item) else s
    else
      Dispatch(Alloc(s, Op(from, Performing(Performer.FRESH_MACHINE), [])), s.nextId, item)
  }

  function Step(s: Server, e: Event): Server {
    match e
    case Arrival(from, inv, env) => Admit(s, from, inv, env)
    case Indication(k, event, env) =>
      if k in s.live && k in s.table && s.table[k].work.Performing?
      then Dispatch(s, k, Item(s.table[k].nsap, Performer.Stimulus(event, env))) else s
    case SegmentationTimer(k) => s.(live := Without(s.live, k), fired := s.fired + multiset{k})
    case NewDelivery(nsap, plan) => Alloc(s, Op(nsap, Delivering(Deliver.Fresh(plan)), []))
    case DeliveryEvent(k, e) =>
      if k in s.live && k in s.table && s.table[k].work.Delivering?
      then Put(s, k, s.table[k].(work := Delivering(Deliver.Step(s.table[k].work.d, e.evt, e.ok, e.id)))) else s
  }

  /**
   What the environment does: invocations are well formed, indications are for operations that can have
   them, and a timer expires only while it runs.
   */
  predicate Possible(s: Server, e: Event) {
    match e
    case Arrival(_, inv, _) => inv.data.Submitted? <==> inv.value.Submission?
    case Indication(k, event, _) =>
      && !event.Invoked?
      && (k in s.table && s.table[k].work.Performing? ==> Performer.Allowed(s.table[k].work.m, event))
    case SegmentationTimer(k) => TimersRunning(s, k) > 0
    case _ => true
  }

  function Run(s: Server, es: seq<Event>): Server {
    if es == [] then s else Step(Run(s, es[..|es| - 1]), es[|es| - 1])
  }

  ghost predicate PossibleRun(s: Server, es: seq<Event>) {
    forall i :: 0 <= i < |es| ==> Possible(Run(s, es[..i]), es[i])
  }

  // ---------- what every run keeps ----------

  function Stimuli(hist: seq<Item>): seq<Performer.Stimulus> {
    seq(|hist|, i requires 0 <= i < |hist| => hist[i].s)
  }

  /** Everything that reached an operation came from its own device and, later segments, under its own sequence id. */
  ghost predicate Own(op: Op) {
    forall i :: 0 <= i < |op.hist| ==> OwnItem(op, i)
  }

  ghost predicate OwnItem(op: Op, i: nat)
    requires i < |op.hist|
  {
    && op.hist[i].from == op.nsap
    && (i == 0 ==> op.hist[i].s.event.Invoked? && !IsLater(op.hist[i].s.event.inv))
    && (i > 0 && op.hist[i].s.event.Invoked? ==>
          IsLater(op.hist[i].s.event.inv) && KeyOf(op.hist[i].s.event.inv) == SequenceId(op))
  }

  /** An operation in the server is where its own events, and no others, have brought it. */
  ghost predicate Faithful(op: Op) {
    op.work.Performing? ==>
      && op.hist != [] && op.work.m.data.Some? && Own(op)
      && Performer.AllowedRun(Performer.FRESH_MACHINE, Stimuli(op.hist))
      && op.work.m == Performer.Run(Performer.FRESH_MACHINE, Stimuli(op.hist))
  }

  /** The active queue is in the order of allocation. */
  ghost predicate Increasing(live: seq<nat>) {
    forall i, j :: 0 <= i < j < |live| ==> live[i] < live[j]
  }

  ghost predicate Inv(s: Server) {
    && (forall k <- s.live :: k in s.table)
    && (forall k <- s.table :: k < s.nextId && Faithful(s.table[k]))
    && (forall k <- s.live :: k < s.nextId) && Increasing(s.live)
    && (forall k :: k in s.fired ==> k in s.table)
    && (forall k <- s.table :: k in s.live <==> Frees(s, k) == 0)
  }

  /** The operation after one more event of its own. */
  function After(op: Op, item: Item): Op
    requires op.work.Performing?
  {
    op.(work := Performing(Performer.Step(op.work.m, item.s.event, item.s.env)), hist := op.hist + [item])
  }

  lemma OneMoreStimulus(hist: seq<Item>, item: Item)
    ensures Stimuli(hist + [item]) == Stimuli(hist) + [item.s]
  {
  }

  /** What an event may be, for an operation under way. */
  predicate Fits(op: Op, item: Item)
    requires op.work.Performing?
  {
    && item.from == op.nsap && Performer.Allowed(op.work.m, item.s.event)
    && (item.s.event.Invoked? ==> IsLater(item.s.event.inv) && KeyOf(item.s.event.inv) == SequenceId(op))
  }

  lemma AfterIsFaithful(op: Op, item: Item)
    requires op.work.Performing? && Faithful(op) && Fits(op, item)
    ensures Faithful(After(op, item)) && SequenceId(After(op, item)) == SequenceId(op)
  {
    AfterIsRun(op, item);
    AfterKeepsKey(op, item);
    AfterIsOwn(op, item);
  }

  lemma AfterIsRun(op: Op, item: Item)
    requires op.work.Performing? && Faithful(op) && Fits(op, item)
    ensures var op', start := After(op, item), Performer.FRESH_MACHINE;
            && Performer.AllowedRun(start, Stimuli(op'.hist))
            && op'.work.m == Performer.Run(start, Stimuli(op'.hist))
  {
    OneMoreStimulus(op.hist, item);
    Performer.RunOne(Performer.FRESH_MACHINE, Stimuli(op.hist), item.s);
    Performer.AllowedOne(Performer.FRESH_MACHINE, Stimuli(op.hist), item.s);
  }

  lemma AfterKeepsKey(op: Op, item: Item)
    requires op.work.Performing? && Faithful(op) && Fits(op, item)
    ensures SequenceId(After(op, item)) == SequenceId(op) && After(op, item).work.m.data.Some?
  {
    Performer.RunGood(Stimuli(op.hist));
    Performer.KeyIsStable(op.work.m, item.s.event, item.s.env);
    Performer.StepKeepsData(op.work.m, item.s.event, item.s.env);
  }

  lemma AfterIsOwn(op: Op, item: Item)
    requires op.work.Performing? && op.hist != [] && Own(op) && Fits(op, item)
    requires SequenceId(After(op, item)) == SequenceId(op)
    ensures Own(After(op, item))
  {
    var op' := After(op, item);
    forall i | 0 <= i < |op'.hist| ensures OwnItem(op', i) {
      if i < |op.hist| {
        assert OwnItem(op, i) && op'.hist[i] == op.hist[i];
      }
    }
  }

  lemma {:induction false} NewIsFaithful(from: Nsap, inv: Performer.Invocation, env: Performer.Env)
    requires !IsLater(inv) && (inv.data.Submitted? <==> inv.value.Submission?)
    ensures var op := Op(from, Performing(Performer.FRESH_MACHINE), []);
            Faithful(After(op, Item(from, Performer.Stimulus(Performer.Invoked(inv), env))))
  {
    var op := Op(from, Performing(Performer.FRESH_MACHINE), []);
    var item := Item(from, Performer.Stimulus(Performer.Invoked(inv), env));
    OneMoreStimulus([], item);
    assert Stimuli([]) == [];
    Performer.RunOne(Performer.FRESH_MACHINE, [], item.s);
    Performer.AllowedOne(Performer.FRESH_MACHINE, [], item.s);
    var op' := After(op, item);
    assert op'.hist == [item];
    assert OwnItem(op', 0);
  }

  lemma {:induction false} WithoutMembers(live: seq<nat>, k: nat)
    ensures forall x :: x in Without(live, k) <==> x in live && x != k
  {
    if live != [] {
      WithoutMembers(live[1..], k);
      assert live == [live[0]] + live[1..];
    }
  }

  lemma ConsIncreasing(x: nat, live: seq<nat>)
    requires Increasing(live) && forall y <- live :: x < y
    ensures Increasing([x] + live)
  {
    assert forall i :: 0 <= i < |live| ==> live[i] in live;
  }

  lemma {:induction false} WithoutIncreasing(live: seq<nat>, k: nat)
    requires Increasing(live)
    ensures Increasing(Without(live, k))
  {
    if live != [] {
      var rest := Without(live[1..], k);
      WithoutIncreasing(live[1..], k);
      WithoutMembers(live[1..], k);
      assert forall i :: 0 < i < |live| ==> live[0] < live[i];
      if live[0] != k {
        ConsIncreasing(live[0], rest);
      } else {
        assert Without(live, k) == rest;
      }
    }
  }

  lemma WithoutKeeps(live: seq<nat>, k: nat)
    requires Increasing(live)
    ensures forall x :: x in Without(live, k) <==> x in live && x != k
    ensures Increasing(Without(live, k))
  {
    WithoutMembers(live, k);
    WithoutIncreasing(live, k);
  }

  lemma PutKeepsInv(s: Server, k: nat, op: Op)
    requires Inv(s) && k in s.live && Faithful(op)
    ensures Inv(Put(s, k, op))
  {
    WithoutKeeps(s.live, k);
  }

  lemma AppendIncreasing(live: seq<nat>, k: nat)
    requires Increasing(live) && forall x <- live :: x < k
    ensures Increasing(live + [k])
  {
    assert forall i :: 0 <= i < |live| ==> live[i] in live;
  }

  lemma AdmitKeepsInv(s: Server, from: Nsap, inv: Performer.Invocation, env: Performer.Env)
    requires Inv(s) && (inv.data.Submitted? <==> inv.value.Submission?)
    ensures Inv(Admit(s, from, inv, env))
  {
    var item := Item(from, Performer.Stimulus(Performer.Invoked(inv), env));
    if IsLater(inv) {
      var r := Find(s, s.live, from, KeyOf(inv));
      if r.Some? {
        var op := s.table[r.value];
        if op.work.Performing? {
          AfterIsFaithful(op, item);
          PutKeepsInv(s, r.value, After(op, item));
        } else {
          PutKeepsInv(s, r.value, op.(work := Delivering(Deliver.Step(op.work.d, INVOKE_IND, false, 0))));
        }
      }
    } else {
      NewIsFaithful(from, inv, env);
      NewKeepsInv(s, Op(from, Performing(Performer.FRESH_MACHINE), []), item);
    }
  }

  /** The server with a new operation in it. */
  function Added(s: Server, op: Op): Server {
    s.(live := if Over(op.work) then s.live else s.live + [s.nextId], table := s.table[s.nextId := op], nextId := s.nextId + 1)
  }

  lemma {:induction false} WithoutLast(live: seq<nat>, k: nat)
    requires k !in live
    ensures Without(live + [k], k) == live
  {
    if live == [] {
      assert ([k] + [])[1..] == [];
    } else {
      assert (live + [k])[1..] == live[1..] + [k];
      WithoutLast(live[1..], k);
      assert live == [live[0]] + live[1..];
    }
  }

  lemma NewIsAdded(s: Server, op: Op, item: Item)
    requires op.work.Performing? && s.nextId !in s.live
    ensures Dispatch(Alloc(s, op), s.nextId, item) == Added(s, After(op, item))
  {
    WithoutLast(s.live, s.nextId);
    assert s.table[s.nextId := op][s.nextId := After(op, item)] == s.table[s.nextId := After(op, item)];
  }

  lemma AddedKeepsInv(s: Server, op: Op)
    requires Inv(s) && Faithful(op)
    ensures Inv(Added(s, op))
  {
    AppendIncreasing(s.live, s.nextId);
    var s' := Added(s, op);
    forall x | x in s'.table ensures x in s'.live <==> Frees(s', x) == 0 {
      if x != s.nextId { assert x in s.live <==> Frees(s, x) == 0; }
    }
  }

  lemma NewKeepsInv(s: Server, op: Op, item: Item)
    requires Inv(s) && op.work.Performing? && Faithful(After(op, item))
    ensures Inv(Dispatch(Alloc(s, op), s.nextId, item))
  {
    NewIsAdded(s, op, item);
    AddedKeepsInv(s, After(op, item));
  }

  lemma TimerKeepsInv(s: Server, k: nat)
    requires Inv(s) && k in s.table
    ensures Inv(Step(s, SegmentationTimer(k)))
  {
    WithoutKeeps(s.live, k);
    var s' := Step(s, SegmentationTimer(k));
    forall x | x in s'.table ensures x in s'.live <==> Frees(s', x) == 0 {
      assert x in s.live <==> Frees(s, x) == 0;
    }
  }

  lemma {:induction false} IndicationKeepsInv(s: Server, k: nat, event: Performer.Event, env: Performer.Env)
    requires Inv(s) && Possible(s, Indication(k, event, env))
    ensures Inv(Step(s, Indication(k, event, env)))
  {
    if k in s.live && s.table[k].work.Performing? {
      var item := Item(s.table[k].nsap, Performer.Stimulus(event, env));
      AfterIsFaithful(s.table[k], item);
      PutKeepsInv(s, k, After(s.table[k], item));
    }
  }

  lemma {:induction false} DeliveryEventKeepsInv(s: Server, k: nat, e: Deliver.Event)
    requires Inv(s)
    ensures Inv(Step(s, DeliveryEvent(k, e)))
  {
    if k in s.live && s.table[k].work.Delivering? {
      PutKeepsInv(s, k, s.table[k].(work := Delivering(Deliver.Step(s.table[k].work.d, e.evt, e.ok, e.id))));
    }
  }

  lemma {:induction false} NewDeliveryKeepsInv(s: Server, nsap: Nsap, plan: Cutting.Plan)
    requires Inv(s)
    ensures Inv(Step(s, NewDelivery(nsap, plan)))
  {
    AppendIncreasing(s.live, s.nextId);
  }

  lemma {:induction false} StepKeepsInv(s: Server, e: Event)
    requires Inv(s) && Possible(s, e)
    ensures Inv(Step(s, e))
  {
    match e
    case Arrival(from, inv, env) => AdmitKeepsInv(s, from, inv, env);
    case Indication(k, event, env) => IndicationKeepsInv(s, k, event, env);
    case SegmentationTimer(k) => TimerKeepsInv(s, k);
    case NewDelivery(nsap, plan) => NewDeliveryKeepsInv(s, nsap, plan);
    case DeliveryEvent(k, e) => DeliveryEventKeepsInv(s, k, e);
  }

  lemma {:induction false} RunKeepsInv(es: seq<Event>)
    requires PossibleRun(START, es)
    ensures Inv(Run(START, es))
  {
    if es != [] {
      var n := |es| - 1;
      PrefixPossible(START, es, n);
      RunKeepsInv(es[..n]);
      StepKeepsInv(Run(START, es[..n]), es[n]);
    }
  }

  lemma {:induction false} PrefixPossible(s: Server, es: seq<Event>, n: nat)
    requires PossibleRun(s, es) && n <= |es|
    ensures PossibleRun(s, es[..n])
  {
    forall i | 0 <= i < n ensures Possible(Run(s, es[..n][..i]), es[..n][i]) {
      assert es[..n][..i] == es[..i];
    }
  }

  // ---------- what holds of every run ----------

  /** The argument was part of one of these events. */
  ghost predicate Heard(es: seq<Performer.Stimulus>, arg: SubmitArg) {
    exists i :: 0 <= i < |es| && HeardAt(es[i], arg)
  }

  predicate HeardAt(s: Performer.Stimulus, arg: SubmitArg) {
    s.event.Invoked? && s.event.inv.data == Performer.Submitted(arg)
  }

  /** An operation takes only segments it was sent. */
  lemma {:induction false} TakenWereHeard(es: seq<Performer.Stimulus>)
    ensures var m := Performer.Run(Performer.FRESH_MACHINE, es);
            && (m.data.Some? && m.data.value.Submitted? ==> Heard(es, m.data.value.arg))
            && forall g <- m.got :: Heard(es, g)
  {
    if es != [] {
      var n := |es| - 1;
      var before, s := es[..n], es[n];
      TakenWereHeard(before);
      var m := Performer.Run(Performer.FRESH_MACHINE, before);
      var m' := Performer.Run(Performer.FRESH_MACHINE, es);
      StepTakes(m, s);
      HeardLater(before, s);
      assert es == before + [s];
    }
  }

  lemma HeardLater(es: seq<Performer.Stimulus>, s: Performer.Stimulus)
    ensures forall arg :: Heard(es, arg) ==> Heard(es + [s], arg)
    ensures forall arg :: HeardAt(s, arg) ==> Heard(es + [s], arg)
  {
    forall arg | Heard(es, arg) ensures Heard(es + [s], arg) {
      var i :| 0 <= i < |es| && HeardAt(es[i], arg);
      assert HeardAt((es + [s])[i], arg);
    }
    forall arg | HeardAt(s, arg) ensures Heard(es + [s], arg) {
      assert HeardAt((es + [s])[|es|], arg);
    }
  }

  lemma StepTakes(m: Performer.Machine, s: Performer.Stimulus)
    ensures var m' := Performer.Step(m, s.event, s.env);
            && (m'.data.Some? && m'.data.value.Submitted? ==> m'.data == m.data || HeardAt(s, m'.data.value.arg))
            && forall g <- m'.got :: g in m.got || m.data == Some(Performer.Submitted(g)) || HeardAt(s, g)
  {
    var l := Performer.Load(m, s.event);
    AcceptTakes(l, s.env);
  }

  lemma AcceptTakes(l: Performer.Machine, env: Performer.Env)
    ensures Performer.Accept(l, env).1.data == l.data
    ensures forall g <- Performer.Accept(l, env).1.got :: g in l.got || l.data == Some(Performer.Submitted(g))
  {
  }

  /**
   However sessions are interleaved: what is spooled is the join, in order, of segments that came from
   the operation's own device, later ones under the operation's own sequence id.
   */
  lemma {:induction false} SpooledIsOwn(es: seq<Event>, k: nat, i: nat)
    requires PossibleRun(START, es)
    ensures var s := Run(START, es);
            k in s.table && s.table[k].work.Performing? ==>
              var op := s.table[k];
              && Own(op)
              && (forall g <- op.work.m.got :: Heard(Stimuli(op.hist), g))
              && (i < |op.work.m.log| && op.work.m.log[i].Spooled? ==>
                    exists parts :: Performer.Make(op.work.m.got, parts) && op.work.m.log[i].content == Join(parts))
  {
    RunKeepsInv(es);
    var s := Run(START, es);
    if k in s.table && s.table[k].work.Performing? {
      var op := s.table[k];
      TakenWereHeard(Stimuli(op.hist));
      if i < |op.work.m.log| && op.work.m.log[i].Spooled? {
        Performer.SpoolsWhatWasTaken(Stimuli(op.hist), i);
      }
    }
  }

  /** The operation an event is for. */
  predicate Concerns(s: Server, e: Event, k: nat) {
    match e
    case Arrival(from, inv, _) => IsLater(inv) && Find(s, s.live, from, KeyOf(inv)) == Some(k)
    case Indication(k', _, _) => k' == k
    case SegmentationTimer(k') => k' == k
    case NewDelivery(_, _) => false
    case DeliveryEvent(k', _) => k' == k
  }

  /** Operation k is the same in both, and active in both or in neither. */
  ghost predicate Same(s: Server, s': Server, k: nat)
    requires k in s.table
  {
    k in s'.table && s'.table[k] == s.table[k] && (k in s'.live <==> k in s.live)
  }

  lemma PutLeavesOthers(s: Server, x: nat, op: Op, k: nat)
    requires Inv(s) && k in s.table && k != x
    ensures Same(s, Put(s, x, op), k)
  {
    WithoutKeeps(s.live, x);
  }

  lemma DispatchLeavesOthers(s: Server, x: nat, item: Item, k: nat)
    requires Inv(s) && x in s.table && k in s.table && k != x
    ensures Same(s, Dispatch(s, x, item), k)
  {
    match s.table[x].work
    case Performing(m) => PutLeavesOthers(s, x, After(s.table[x], item), k);
    case Delivering(d) =>
      PutLeavesOthers(s, x, s.table[x].(work := Delivering(Deliver.Step(d, Performer.EvtId(item.s.event), false, 0))), k);
  }

  lemma NewLeavesOthers(s: Server, op: Op, item: Item, k: nat)
    requires Inv(s) && k in s.table && op.work.Performing?
    ensures Same(s, Dispatch(Alloc(s, op), s.nextId, item), k)
  {
    NewIsAdded(s, op, item);
  }

  /** An event leaves every operation but its own as it is. */
  lemma OthersUntouched(s: Server, e: Event, k: nat)
    requires Inv(s) && Possible(s, e) && k in s.table && !Concerns(s, e, k)
    ensures Same(s, Step(s, e), k)
  {
    match e
    case Arrival(from, inv, env) =>
      var item := Item(from, Performer.Stimulus(Performer.Invoked(inv), env));
      if !IsLater(inv) {
        NewLeavesOthers(s, Op(from, Performing(Performer.FRESH_MACHINE), []), item, k);
      } else if Find(s, s.live, from, KeyOf(inv)).Some? {
        DispatchLeavesOthers(s, Find(s, s.live, from, KeyOf(inv)).value, item, k);
      }
    case Indication(x, event, env) =>
      if x in s.live && s.table[x].work.Performing? {
        DispatchLeavesOthers(s, x, Item(s.table[x].nsap, Performer.Stimulus(event, env)), k);
      }
    case SegmentationTimer(x) => WithoutKeeps(s.live, x);
    case NewDelivery(_, _) =>
    case DeliveryEvent(x, d) =>
      if x in s.live && s.table[x].work.Delivering? {
        PutLeavesOthers(s, x, s.table[x].(work := Delivering(Deliver.Step(s.table[x].work.d, d.evt, d.ok, d.id))), k);
      }
  }

  /** In every run the active queue holds exactly the operations that were allocated and not freed. */
  lemma {:induction false} ActiveAreUnfreed(es: seq<Event>, k: nat)
    requires PossibleRun(START, es)
    ensures var s := Run(START, es); k in s.live <==> k in s.table && Frees(s, k) == 0
  {
    RunKeepsInv(es);
  }

  // ---------- how often an operation is freed ----------

  /** A freed operation stays as it is, and without a running timer nothing frees it again. */
  lemma FreedStays(s: Server, e: Event, k: nat)
    requires Inv(s) && Possible(s, e) && k in s.table && k !in s.live && TimersRunning(s, k) == 0
    ensures var s' := Step(s, e);
            && k in s'.table && s'.table[k] == s.table[k] && k !in s'.live
            && Frees(s', k) == Frees(s, k) && TimersRunning(s', k) == 0
  {
    WithoutKeeps(s.live, if e.SegmentationTimer? then e.operId else k);
    if !Concerns(s, e, k) {
      OthersUntouched(s, e, k);
    }
  }

  lemma {:induction false} FreedStaysSo(s: Server, fs: seq<Event>, k: nat)
    requires Inv(s) && PossibleRun(s, fs) && k in s.table && k !in s.live && TimersRunning(s, k) == 0
    ensures var s' := Run(s, fs);
            && Inv(s') && k in s'.table && k !in s'.live
            && Frees(s', k) == Frees(s, k) && TimersRunning(s', k) == 0
  {
    if fs != [] {
      var n := |fs| - 1;
      PrefixPossible(s, fs, n);
      FreedStaysSo(s, fs[..n], k);
      StepKeepsInv(Run(s, fs[..n]), fs[n]);
      FreedStays(Run(s, fs[..n]), fs[n], k);
    }
  }

  /** The timers that run for an operation, counted over the segments it took. */
  lemma {:induction false} TimersBySegments(s: Server, k: nat)
    requires Inv(s) && k in s.table && s.table[k].work.Performing?
    ensures var op := s.table[k];
            TimersRunning(s, k) ==
            var left := Performer.Running(Performer.FirstsTaken(Stimuli(op.hist)), op.work.m.a.complete);
            if left > s.fired[k] then left - s.fired[k] else 0
  {
    Performer.TimersRunning(Stimuli(s.table[k].hist));
  }

  /** An operation that was freed is never freed again, whatever happens. */
  ghost predicate NeverAgain(s: Server, k: nat) {
    forall fs :: PossibleRun(s, fs) ==> Frees(Run(s, fs), k) == Frees(s, k)
  }

  /**
   In every run an operation that has ended is not freed again if and only if no timer runs for it: if
   and only if the first segments it took, less one when its message was complete, have all had their
   timers expire. For an operation that did not end by a timer this says that it took no first segment
   of several, or took one, once, and all the others.
   */
  lemma {:induction false} FreedOnceExactly(es: seq<Event>, k: nat)
    requires PossibleRun(START, es)
    requires var s := Run(START, es); k in s.table && k !in s.live && s.table[k].work.Performing?
    ensures var s := Run(START, es);
            var op := s.table[k];
            NeverAgain(s, k) <==>
            Performer.Running(Performer.FirstsTaken(Stimuli(op.hist)), op.work.m.a.complete) <= s.fired[k]
  {
    RunKeepsInv(es);
    var s := Run(START, es);
    TimersBySegments(s, k);
    if TimersRunning(s, k) == 0 {
      forall fs | PossibleRun(s, fs) ensures Frees(Run(s, fs), k) == Frees(s, k) {
        FreedStaysSo(s, fs, k);
      }
    } else {
      TimerFreesAgain(s, k);
    }
  }

  /** A timer that runs for a freed operation frees it again. */
  lemma TimerFreesAgain(s: Server, k: nat)
    requires k in s.table && TimersRunning(s, k) > 0
    ensures var fs := [SegmentationTimer(k)];
            PossibleRun(s, fs) && Frees(Run(s, fs), k) == Frees(s, k) + 1
  {
    var fs := [SegmentationTimer(k)];
    assert fs[..0] == [];
    assert Run(s, fs) == Step(s, SegmentationTimer(k));
  }

  // ---------- one session among others ----------

  /** No other active operation has the session's key. */
  ghost predicate KeyIsDistinct(s: Server, nsap: Nsap, id: Uint32, k: nat) {
    forall x <- s.live :: Matches(s, x, nsap, id) ==> x == k
  }

  /** The session's share of an event: its later segments, and the indications for its operation. */
  function Share(e: Event, nsap: Nsap, id: Uint32, k: nat): seq<Performer.Stimulus> {
    match e
    case Arrival(from, inv, env) =>
      if IsLater(inv) && from == nsap && KeyOf(inv) == id then [Performer.Stimulus(Performer.Invoked(inv), env)] else []
    case Indication(k', event, env) => if k' == k then [Performer.Stimulus(event, env)] else []
    case _ => []
  }

  function Shares(es: seq<Event>, nsap: Nsap, id: Uint32, k: nat): seq<Performer.Stimulus> {
    if es == [] then [] else Shares(es[..|es| - 1], nsap, id, k) + Share(es[|es| - 1], nsap, id, k)
  }

  /** The session with this key, at work in operation k with machine m, or finished. */
  ghost predicate Session(s: Server, nsap: Nsap, id: Uint32, k: nat, m: Performer.Machine) {
    && Inv(s) && k in s.table && s.table[k].nsap == nsap && s.table[k].work == Performing(m)
    && m.a.sequenceId == id
    && (k in s.live <==> !m.phase.Freed?)
  }

  lemma SessionStep(s: Server, e: Event, nsap: Nsap, id: Uint32, k: nat, m: Performer.Machine)
    requires Session(s, nsap, id, k, m) && Possible(s, e) && KeyIsDistinct(s, nsap, id, k)
    requires e != SegmentationTimer(k)
    ensures Session(Step(s, e), nsap, id, k, Performer.Run(m, Share(e, nsap, id, k)))
  {
    StepKeepsInv(s, e);
    var share := Share(e, nsap, id, k);
    if share != [] {
      assert share[..0] == [];
      assert Performer.Run(m, share) == Performer.Step(m, share[0].event, share[0].env);
      SessionTakes(s, e, nsap, id, k, m);
    } else if !Concerns(s, e, k) {
      OthersUntouched(s, e, k);
    }
  }

  lemma {:induction false} SessionTakes(s: Server, e: Event, nsap: Nsap, id: Uint32, k: nat, m: Performer.Machine)
    requires Session(s, nsap, id, k, m) && Possible(s, e) && KeyIsDistinct(s, nsap, id, k)
    requires Share(e, nsap, id, k) != []
    ensures var st := Share(e, nsap, id, k)[0];
            Session(Step(s, e), nsap, id, k, Performer.Step(m, st.event, st.env))
  {
    StepKeepsInv(s, e);
    var st := Share(e, nsap, id, k)[0];
    var op := s.table[k];
    if k in s.live {
      assert Matches(s, k, nsap, id);
      var item := Item(nsap, st);
      assert Step(s, e) == Put(s, k, After(op, item));
      AfterIsFaithful(op, item);
      WithoutKeeps(s.live, k);
    } else {
      assert Step(s, e) == s;
    }
  }

  /** A run in which no other active operation has the session's key and its timer does not expire. */
  ghost predicate Undisturbed(s: Server, es: seq<Event>, nsap: Nsap, id: Uint32, k: nat) {
    && PossibleRun(s, es)
    && (forall i :: 0 <= i < |es| ==> KeyIsDistinct(Run(s, es[..i]), nsap, id, k))
    && SegmentationTimer(k) !in es
  }

  lemma {:induction false} UndisturbedPrefix(s: Server, es: seq<Event>, nsap: Nsap, id: Uint32, k: nat)
    requires Undisturbed(s, es, nsap, id, k) && es != []
    ensures var n := |es| - 1;
            && Undisturbed(s, es[..n], nsap, id, k)
            && KeyIsDistinct(Run(s, es[..n]), nsap, id, k)
            && Possible(Run(s, es[..n]), es[n]) && es[n] != SegmentationTimer(k)
  {
    var n := |es| - 1;
    PrefixPossible(s, es, n);
    assert forall i :: 0 <= i < n ==> es[..n][..i] == es[..i];
    assert es[n] in es;
  }

  /** Whatever else happens beside it, an undisturbed session is where its own events bring it. */
  lemma {:induction false} SessionFollows(s: Server, es: seq<Event>, nsap: Nsap, id: Uint32, k: nat, m: Performer.Machine)
    requires Session(s, nsap, id, k, m) && Undisturbed(s, es, nsap, id, k)
    ensures Session(Run(s, es), nsap, id, k, Performer.Run(m, Shares(es, nsap, id, k)))
  {
    if es != [] {
      var n := |es| - 1;
      UndisturbedPrefix(s, es, nsap, id, k);
      SessionFollows(s, es[..n], nsap, id, k, m);
      SessionStep(Run(s, es[..n]), es[n], nsap, id, k, Performer.Run(m, Shares(es[..n], nsap, id, k)));
      RunJoin(m, Shares(es[..n], nsap, id, k), Share(es[n], nsap, id, k));
    }
  }

  lemma {:induction false} RunJoin(m: Performer.Machine, es: seq<Performer.Stimulus>, fs: seq<Performer.Stimulus>)
    ensures Performer.Run(m, es + fs) == Performer.Run(Performer.Run(m, es), fs)
  {
    if fs == [] {
      assert es + fs == es;
    } else {
      var n := |fs| - 1;
      assert (es + fs)[..|es| + n] == es + fs[..n];
      RunJoin(m, es, fs[..n]);
    }
  }

  /** The first segment opens the session in a new operation. */
  lemma SessionOpens(s: Server, nsap: Nsap, id: Uint32, parts: seq<Bytes>, rule: ShiftRule)
    requires Inv(s) && 2 <= |parts| <= MTSUA_MAX_SEGMENTS && (|parts| < Words.WIDTH || rule.ShiftsOut?)
    ensures var first := Performer.Segment(id, parts, 0, rule);
            var m := Performer.Run(Performer.FRESH_MACHINE, [first]);
            Session(Step(s, Arrival(nsap, first.event.inv, first.env)), nsap, id, s.nextId, m)
  {
    var first := Performer.Segment(id, parts, 0, rule);
    AdmitKeepsInv(s, nsap, first.event.inv, first.env);
    Performer.RunOne(Performer.FRESH_MACHINE, [], first);
    assert [] + [first] == [first];
    assert Performer.Session(id, parts, [], rule) == [first];
    Performer.FirstRuns(id, parts, rule);
    var m := Performer.Run(Performer.FRESH_MACHINE, [first]);
    assert m == Performer.Step(Performer.FRESH_MACHINE, first.event, first.env);
    FirstCollected(id, parts, rule);
    OpenedLive(s, nsap, Item(nsap, first));
  }

  lemma OpenedLive(s: Server, nsap: Nsap, item: Item)
    requires Inv(s)
    ensures var op := Op(nsap, Performing(Performer.FRESH_MACHINE), []);
            var s' := Dispatch(Alloc(s, op), s.nextId, item);
            && s.nextId in s'.table && s'.table[s.nextId] == After(op, item)
            && (s.nextId in s'.live <==> !Over(After(op, item).work))
  {
    AppendIncreasing(s.live, s.nextId);
    WithoutKeeps(s.live + [s.nextId], s.nextId);
    assert (s.live + [s.nextId])[|s.live|] == s.nextId;
  }

  /**
   A submission in segments, among any number of other sessions and deliveries: the first segment
   arrives, and then, among whatever else, its later segments in any order, each once the result before
   it is confirmed. As long as its key stays its own, the message is spooled exactly when the result
   for the last missing segment is confirmed, and it is the join of the session's own segments.
   */
  lemma {:induction false} InterleavedSubmission(s: Server, es: seq<Event>, nsap: Nsap, id: Uint32, parts: seq<Bytes>, order: seq<nat>, rule: ShiftRule)
    requires Inv(s) && 2 <= |parts| <= MTSUA_MAX_SEGMENTS && (|parts| < Words.WIDTH || rule.ShiftsOut?)
    requires forall k :: 0 <= k < |order| ==> 1 <= order[k] < |parts|
    requires Distinct(order) && |order| <= |parts| - 1
    requires var first := Performer.Segment(id, parts, 0, rule);
             && Undisturbed(Step(s, Arrival(nsap, first.event.inv, first.env)), es, nsap, id, s.nextId)
             && [first] + Shares(es, nsap, id, s.nextId) == Performer.Session(id, parts, order, rule) + [Performer.Confirmed(rule)]
    ensures var first, k := Performer.Segment(id, parts, 0, rule), s.nextId;
            var s' := Run(Step(s, Arrival(nsap, first.event.inv, first.env)), es);
            && k in s'.table && s'.table[k].work.Performing?
            && if |order| < |parts| - 1 then k in s'.live && s'.table[k].work.m.log == []
               else k !in s'.live && s'.table[k].work.m.log == [Performer.Spooled(Join(parts))]
  {
    var first, k := Performer.Segment(id, parts, 0, rule), s.nextId;
    var s1 := Step(s, Arrival(nsap, first.event.inv, first.env));
    SessionOpens(s, nsap, id, parts, rule);
    SessionFollows(s1, es, nsap, id, k, Performer.Run(Performer.FRESH_MACHINE, [first]));
    RunJoin(Performer.FRESH_MACHINE, [first], Shares(es, nsap, id, k));
    Performer.SubmissionRoundTrip(id, parts, order, rule);
  }

  // ---------- an operation that is freed twice ----------

  lemma Extend(s: Server, es: seq<Event>, e: Event)
    requires PossibleRun(s, es) && Possible(Run(s, es), e)
    ensures PossibleRun(s, es + [e]) && Run(s, es + [e]) == Step(Run(s, es), e)
  {
    forall i | 0 <= i < |es + [e]| ensures Possible(Run(s, (es + [e])[..i]), (es + [e])[i]) {
      assert (es + [e])[..i] == if i < |es| then es[..i] else es;
    }
    assert (es + [e])[..|es|] == es;
  }

  /** The session's operation is the only one there ever was. */
  ghost predicate Only(s: Server, nsap: Nsap, id: Uint32, m: Performer.Machine) {
    Session(s, nsap, id, 1, m) && s.table.Keys == {1} && 1 !in s.fired
  }

  /** One more event of the only session there is. */
  lemma OnlyStep(es: seq<Event>, e: Event, nsap: Nsap, id: Uint32, m: Performer.Machine) returns (es': seq<Event>, m': Performer.Machine)
    requires PossibleRun(START, es) && Only(Run(START, es), nsap, id, m) && Possible(Run(START, es), e)
    requires Share(e, nsap, id, 1) != []
    ensures PossibleRun(START, es') && Only(Run(START, es'), nsap, id, m')
    ensures var st := Share(e, nsap, id, 1)[0]; m' == Performer.Step(m, st.event, st.env)
  {
    var s := Run(START, es);
    Extend(START, es, e);
    es' := es + [e];
    var st := Share(e, nsap, id, 1)[0];
    m' := Performer.Step(m, st.event, st.env);
    assert KeyIsDistinct(s, nsap, id, 1);
    SessionTakes(s, e, nsap, id, 1, m);
    OnlyItself(s, e, nsap, id, m);
  }

  lemma OnlyItself(s: Server, e: Event, nsap: Nsap, id: Uint32, m: Performer.Machine)
    requires Only(s, nsap, id, m) && Share(e, nsap, id, 1) != []
    ensures Step(s, e).table.Keys == {1} && Step(s, e).fired == s.fired
  {
  }

  /**
   Two segments of three, the second of them sent twice: the repetition is refused, the error confirmed
   and the operation freed, and then its timer, which nothing has stopped, frees it again.
   */
  lemma FreedTwice(nsap: Nsap, id: Uint32, parts: seq<Bytes>, rule: ShiftRule)
    requires |parts| == 3
    ensures exists es ::
              && PossibleRun(START, es + [SegmentationTimer(1)])
              && 1 !in Run(START, es).live && Frees(Run(START, es), 1) == 1
              && Frees(Run(START, es + [SegmentationTimer(1)]), 1) == 2
  {
    var es, m := OpenAndRepeat(nsap, id, parts, rule);
    var s := Run(START, es);
    TimerFreesAgain(s, 1);
    Extend(START, es, SegmentationTimer(1));
  }

  /** The run of FreedTwice, up to its timer. */
  lemma OpenAndRepeat(nsap: Nsap, id: Uint32, parts: seq<Bytes>, rule: ShiftRule) returns (es: seq<Event>, m: Performer.Machine)
    requires |parts| == 3
    ensures PossibleRun(START, es) && Only(Run(START, es), nsap, id, m)
    ensures m.phase.Freed? && !m.a.complete && m.armed == 1
  {
    var piece := Performer.Segment(id, parts, 1, rule);
    es, m := OpenTwo(nsap, id, parts, rule);
    RepeatEnds(m, piece, Performer.Well(rule));
    es, m := OnlyStep(es, Indication(1, Performer.Plain(RESULT_CON), Performer.Well(rule)), nsap, id, m);
    es, m := OnlyStep(es, Arrival(nsap, piece.event.inv, piece.env), nsap, id, m);
    es, m := OnlyStep(es, Indication(1, Performer.Plain(ERROR_CON), Performer.Well(rule)), nsap, id, m);
  }

  /** What becomes of the operation: its result confirmed, a segment repeated, the error confirmed. */
  lemma RepeatEnds(m: Performer.Machine, piece: Performer.Stimulus, env: Performer.Env)
    requires m.phase == Performer.In(Performer.S2SubmitResultResponseWait) && !m.a.complete
    requires piece.event.Invoked? && IsLater(piece.event.inv) && piece.event.inv.value.Submission?
    requires piece.event.inv.data.arg.segmentInfo.value.thisSegment as nat in m.a.received
    ensures var m1 := Performer.Step(m, Performer.Plain(RESULT_CON), env);
            var m2 := Performer.Step(m1, piece.event, piece.env);
            var m3 := Performer.Step(m2, Performer.Plain(ERROR_CON), env);
            && m1.data == m.data && m2.data.Some?
            && m3.phase.Freed? && m3.a == m.a && m3.armed == m.armed
  {
    var m1 := Performer.Step(m, Performer.Plain(RESULT_CON), env);
    assert m1 == m.(phase := Performer.In(Performer.S1Idle));
    RepeatIsRefused(m1, piece);
  }

  /** Its first two segments, of three. */
  lemma OpenTwo(nsap: Nsap, id: Uint32, parts: seq<Bytes>, rule: ShiftRule) returns (es: seq<Event>, m: Performer.Machine)
    requires |parts| == 3
    ensures PossibleRun(START, es) && Only(Run(START, es), nsap, id, m)
    ensures m.phase == Performer.In(Performer.S2SubmitResultResponseWait) && !m.a.complete && m.armed == 1
    ensures m.data.Some? && m.value.Submission? && 1 in m.a.received
  {
    var piece := Performer.Segment(id, parts, 1, rule);
    es, m := OpenOne(nsap, id, parts, rule);
    TwoTaken(m, id, parts, rule);
    es, m := OnlyStep(es, Indication(1, Performer.Plain(RESULT_CON), Performer.Well(rule)), nsap, id, m);
    es, m := OnlyStep(es, Arrival(nsap, piece.event.inv, piece.env), nsap, id, m);
  }

  /** What becomes of an operation that has the first of three segments and is sent the second. */
  lemma TwoTaken(m: Performer.Machine, id: Uint32, parts: seq<Bytes>, rule: ShiftRule)
    requires |parts| == 3 && m == Performer.Run(Performer.FRESH_MACHINE, Performer.Session(id, parts, [], rule))
    ensures var piece := Performer.Segment(id, parts, 1, rule);
            var m1 := Performer.Step(m, Performer.Plain(RESULT_CON), Performer.Well(rule));
            var m2 := Performer.Step(m1, piece.event, piece.env);
            && m.data.Some? && m1.data.Some?
            && m2.phase == Performer.In(Performer.S2SubmitResultResponseWait) && !m2.a.complete && m2.armed == 1
            && m2.data.Some? && m2.value.Submission? && 1 in m2.a.received
  {
    Performer.SessionRuns(id, parts, [], rule);
    Performer.NextRuns(m, id, parts, [], 1, rule);
    assert [] + [1] == [1];
    ArriveReceives(id, parts, [1], rule);
    assert 1 in Arrived([1]);
    Performer.StepKeepsData(m, Performer.Plain(RESULT_CON), Performer.Well(rule));
  }

  lemma RepeatIsRefused(m: Performer.Machine, piece: Performer.Stimulus)
    requires m.phase == Performer.In(Performer.S1Idle) && piece.event.Invoked? && IsLater(piece.event.inv)
    requires piece.event.inv.value.Submission?
    requires piece.event.inv.data.arg.segmentInfo.value.thisSegment as nat in m.a.received
    ensures var m' := Performer.Step(m, piece.event, piece.env);
            m'.phase == Performer.In(Performer.S4ErrorResponseWait) && m'.a == m.a && m'.armed == m.armed && m'.data.Some?
  {
  }

  lemma OpenOne(nsap: Nsap, id: Uint32, parts: seq<Bytes>, rule: ShiftRule) returns (es: seq<Event>, m: Performer.Machine)
    requires |parts| == 3
    ensures PossibleRun(START, es) && Only(Run(START, es), nsap, id, m)
    ensures m == Performer.Run(Performer.FRESH_MACHINE, Performer.Session(id, parts, [], rule))
  {
    var first := Performer.Segment(id, parts, 0, rule);
    var e := Arrival(nsap, first.event.inv, first.env);
    Extend(START, [], e);
    es := [] + [e];
    m := Performer.Run(Performer.FRESH_MACHINE, [first]);
    SessionOpens(START, nsap, id, parts, rule);
    assert Performer.Session(id, parts, [], rule) == [first];
  }

  // ---------- one delivery among others ----------

  /** A delivery to this device, at work in operation k with machine d, or finished. */
  ghost predicate DeliveryAt(s: Server, nsap: Nsap, k: nat, d: Deliver.Machine) {
    Inv(s) && k in s.table && s.table[k].nsap == nsap && s.table[k].work == Delivering(d) && (k in s.live <==> !d.phase.Done?)
  }

  /** The events for operation k, in order. */
  function DeliveryEvents(es: seq<Event>, k: nat): seq<Deliver.Event> {
    if es == [] then []
    else
      var e := es[|es| - 1];
      DeliveryEvents(es[..|es| - 1], k) + if e.DeliveryEvent? && e.operId == k then [e.e] else []
  }

  /** A run in which no segment is taken for one of operation k. */
  ghost predicate Spared(s: Server, es: seq<Event>, k: nat) {
    && PossibleRun(s, es)
    && forall i :: 0 <= i < |es| ==> !(es[i].Arrival? && Concerns(Run(s, es[..i]), es[i], k))
  }

  lemma {:induction false} SparedPrefix(s: Server, es: seq<Event>, k: nat)
    requires Spared(s, es, k) && es != []
    ensures var n := |es| - 1;
            Spared(s, es[..n], k) && Possible(Run(s, es[..n]), es[n]) && !(es[n].Arrival? && Concerns(Run(s, es[..n]), es[n], k))
  {
    var n := |es| - 1;
    PrefixPossible(s, es, n);
    assert forall i :: 0 <= i < n ==> es[..n][..i] == es[..i];
  }

  lemma {:induction false} NewDeliveryOpens(s: Server, nsap: Nsap, plan: Cutting.Plan)
    requires Inv(s)
    ensures DeliveryAt(Step(s, NewDelivery(nsap, plan)), nsap, s.nextId, Deliver.Fresh(plan))
  {
    StepKeepsInv(s, NewDelivery(nsap, plan));
  }

  lemma {:induction false} DeliveryStep(s: Server, e: Event, nsap: Nsap, k: nat, d: Deliver.Machine)
    requires DeliveryAt(s, nsap, k, d) && Possible(s, e) && !(e.Arrival? && Concerns(s, e, k))
    ensures DeliveryAt(Step(s, e), nsap, k, if e.DeliveryEvent? && e.operId == k then Deliver.Step(d, e.e.evt, e.e.ok, e.e.id) else d)
  {
    StepKeepsInv(s, e);
    if e.DeliveryEvent? && e.operId == k {
      WithoutKeeps(s.live, k);
    } else if !Concerns(s, e, k) {
      OthersUntouched(s, e, k);
    }
  }

  lemma {:induction false} LastDeliveryEvent(d: Deliver.Machine, es: seq<Event>, k: nat)
    requires es != []
    ensures var e, was := es[|es| - 1], Deliver.Run(d, DeliveryEvents(es[..|es| - 1], k));
            Deliver.Run(d, DeliveryEvents(es, k)) ==
            if e.DeliveryEvent? && e.operId == k then Deliver.Step(was, e.e.evt, e.e.ok, e.e.id) else was
  {
    var n := |es| - 1;
    if es[n].DeliveryEvent? && es[n].operId == k {
      Deliver.RunOne(d, DeliveryEvents(es[..n], k), es[n].e);
    } else {
      assert DeliveryEvents(es, k) == DeliveryEvents(es[..n], k);
    }
  }

  /**
   Whatever else happens beside it, a delivery of the server is where its own events bring it, and active
   until they have ended it, as long as no segment is taken for one of its own.
   */
  lemma {:induction false} DeliveryFollows(s: Server, es: seq<Event>, nsap: Nsap, k: nat, d: Deliver.Machine)
    requires DeliveryAt(s, nsap, k, d) && Spared(s, es, k)
    ensures DeliveryAt(Run(s, es), nsap, k, Deliver.Run(d, DeliveryEvents(es, k)))
  {
    if es != [] {
      var n := |es| - 1;
      SparedPrefix(s, es, k);
      DeliveryFollows(s, es[..n], nsap, k, d);
      DeliveryStep(Run(s, es[..n]), es[n], nsap, k, Deliver.Run(d, DeliveryEvents(es[..n], k)));
      LastDeliveryEvent(d, es, k);
    }
  }

  /** A delivery begun in any run of the server is the delivery of its own message to its own device. */
  lemma {:induction false} DeliveryIsItself(before: seq<Event>, nsap: Nsap, plan: Cutting.Plan, es: seq<Event>)
    requires PossibleRun(START, before)
    requires Spared(Step(Run(START, before), NewDelivery(nsap, plan)), es, Run(START, before).nextId)
    ensures var s, k := Run(START, before), Run(START, before).nextId;
            DeliveryAt(Run(Step(s, NewDelivery(nsap, plan)), es), nsap, k, Deliver.Run(Deliver.Fresh(plan), DeliveryEvents(es, k)))
  {
    RunKeepsInv(before);
    var s := Run(START, before);
    NewDeliveryOpens(s, nsap, plan);
    DeliveryFollows(Step(s, NewDelivery(nsap, plan)), es, nsap, s.nextId, Deliver.Fresh(plan));
  }

  // ---------- why the key has to be distinct ----------

  lemma {:induction false} FindIsOldest(s: Server, live: seq<nat>, nsap: Nsap, id: Uint32, x: nat)
    requires Increasing(live) && x in live && Matches(s, x, nsap, id)
    ensures Find(s, live, nsap, id).Some? && Find(s, live, nsap, id).value <= x
  {
    if live[0] == x || Matches(s, live[0], nsap, id) {
      var i :| 0 <= i < |live| && live[i] == x;
    } else {
      FindIsOldest(s, live[1..], nsap, id, x);
    }
  }

  /** Of two active operations with the same key the later one gets no segment. */
  lemma {:induction false} LaterSessionGetsNothing(s: Server, x: nat, y: nat, nsap: Nsap, inv: Performer.Invocation, env: Performer.Env)
    requires Inv(s) && x in s.live && y in s.live && x < y && IsLater(inv) && inv.value.Submission?
    requires Matches(s, x, nsap, KeyOf(inv)) && Matches(s, y, nsap, KeyOf(inv))
    ensures var s' := Admit(s, nsap, inv, env); y in s'.live && s'.table[y] == s.table[y]
  {
    FindIsOldest(s, s.live, nsap, KeyOf(inv), x);
    OthersUntouched(s, Arrival(nsap, inv, env), y);
  }

  /**
   A segment whose key is that of a delivery under way ends the delivery: its message is neither
   delivered nor put back, and the segment is lost.
   */
  lemma SegmentEndsDelivery(s: Server, x: nat, nsap: Nsap, inv: Performer.Invocation, env: Performer.Env)
    requires Inv(s) && IsLater(inv) && Find(s, s.live, nsap, KeyOf(inv)) == Some(x)
    requires s.table[x].work.Delivering? && s.table[x].work.d.phase.Waiting?
    ensures var s' := Admit(s, nsap, inv, env);
            && x !in s'.live
            && s'.table[x].work == Delivering(s.table[x].work.d.(phase := Deliver.Done(Deliver.Abandoned)))
            && forall k <- s.table :: k != x ==> s'.table[k] == s.table[k]
  {
    WithoutKeeps(s.live, x);
  }

  // ---------- the code ----------

  /** The operations of the server: globals.activeOperations and what its members hold. */
  class Preprocessor {
    var activeOperations: seq<nat>   // operIds, oldest first
    var operations: map<nat, Op>
    var serialNumber: nat
    ghost var fired: multiset<nat>

    constructor ()
      ensures View() == START
    {
      activeOperations, operations, serialNumber, fired := [], map[], 1, multiset{};
    }

    ghost function View(): Server
      reads this
    {
      Server(activeOperations, operations, serialNumber, fired)
    }

    /** findOperationBySequenceId, which compares NSAPs by their texts. */
    method FindOperationBySequenceId(pNsap: string, sequenceId: Uint32, ghost nsap: Nsap) returns (r: Option<nat>)
      requires pNsap == Address.NsapText(nsap)
      requires forall k <- activeOperations :: k in operations
      ensures r == Find(View(), activeOperations, nsap, sequenceId)
    {
      var i := 0;
      while i < |activeOperations|
        invariant i <= |activeOperations|
        invariant Find(View(), activeOperations, nsap, sequenceId) == Find(View(), activeOperations[i..], nsap, sequenceId)
      {
        var k := activeOperations[i];
        var nsapString := Address.NsapText(operations[k].nsap);
        Address.NsapTextsCompare(operations[k].nsap, nsap);
        if SequenceId(operations[k]) == sequenceId && nsapString == pNsap {
          return Some(k);
        }
        assert activeOperations[i..][1..] == activeOperations[i + 1..];
        i := i + 1;
      }
      r := None;
    }

    /** An event is generated for operation k; if that ends it, it is freed. */
    method GenerateEvent(k: nat, item: Item)
      requires k in operations
      modifies this`operations, this`activeOperations
      ensures View() == Dispatch(old(View()), k, item)
    {
      var op := operations[k];
      match op.work {
        case Performing(m) =>
          op := op.(work := Performing(Performer.Step(m, item.s.event, item.s.env)), hist := op.hist + [item]);
        case Delivering(d) =>
          op := op.(work := Delivering(Deliver.Step(d, Performer.EvtId(item.s.event), false, 0)));
      }
      operations := operations[k := op];
      if Over(op.work) {
        activeOperations := Without(activeOperations, k);
      }
    }

    /** mts_preprocessInvokeIndication once the pdu is parsed, and the INVOKE.ind event for the operation, if there is one. */
    method Associate(from: Nsap, inv: Performer.Invocation, env: Performer.Env) returns (ok: bool)
      requires Inv(View()) && (inv.data.Submitted? <==> inv.value.Submission?)
      modifies this
      ensures Inv(View()) && View() == Admit(old(View()), from, inv, env)
      ensures ok <==> IsLater(inv) ==> Find(old(View()), old(activeOperations), from, KeyOf(inv)).Some?
    {
      AdmitKeepsInv(View(), from, inv, env);
      var item := Item(from, Performer.Stimulus(Performer.Invoked(inv), env));
      var k: nat;
      if inv.data.Submitted? && inv.data.arg.segmentInfo.Some? && inv.data.arg.segmentInfo.value.Other? {
        var nsapString := Address.NsapText(from);
        var found := FindOperationBySequenceId(nsapString, inv.data.arg.segmentInfo.value.sequenceId, from);
        if found.None? {
          return false;
        }
        k := found.value;
      } else {
        k := AllocOperation(from);
      }
      GenerateEvent(k, item);
      ok := true;
    }

    /** segmentationTimerExpired: mts_freeOperation, whether or not the operation is still there. */
    method SegmentationTimerExpired(k: nat)
      requires Inv(View()) && Possible(View(), SegmentationTimer(k))
      modifies this`activeOperations, this`fired
      ensures Inv(View()) && View() == Step(old(View()), SegmentationTimer(k))
      ensures Frees(View(), k) == Frees(old(View()), k) + 1
    {
      TimerKeepsInv(View(), k);
      activeOperations := Without(activeOperations, k);
      fired := fired + multiset{k};
    }

    /** mts_allocOperation, for an operation a device invokes. */
    method AllocOperation(nsap: Nsap) returns (k: nat)
      modifies this
      ensures k == old(serialNumber) && k in operations
      ensures View() == Alloc(old(View()), Op(nsap, Performing(Performer.FRESH_MACHINE), []))
    {
      k := serialNumber;
      serialNumber := serialNumber + 1;
      operations := operations[k := Op(nsap, Performing(Performer.FRESH_MACHINE), [])];
      activeOperations := activeOperations + [k];
    }
  }
}
