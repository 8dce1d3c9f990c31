/**
 One delivery to a device (deliver.c): what a run of its state machine transmits, how often, and
 what becomes of the message. Machine and Step are the meaning, event by event; Operation is the
 code, driven by the transition tables.
 */
module Deliver {
  import opened Common
  import opened Fsm
  import opened Reassembly
  import opened Cutting

  const MTS_MAX_FAILURE_RETRIES: nat := 2
  const ERROR_RESOURCE: nat := 0   // stands for EMSD_Error_ResourceError, the only transient error

  /** What is handed to the transport: segment information and contents of the deliver argument. */
  datatype Pdu = Pdu(info: Option<SegmentInfo>, contents: Bytes)

  /** What a finished delivery did with its message; Abandoned left it as it was. */
  datatype Fate = Succeeded | Respooled | Deleted | Abandoned

  /** Undefined: the code went on with a null buffer, and nothing is claimed from there. */
  datatype Phase = Ready | Waiting | Done(fate: Fate) | Undefined

  datatype Entry = Invoke(pdu: Pdu, ok: bool) | Result

  /**
   `piece` is the number of the piece last handed over, `sent` whether the transport took it, `posted`
   how many FAILURE.ind events the actions have posted to their own machine, to arrive later,
   `log` everything handed over and every RESULT.ind so far.
   */
  datatype Machine = Machine(
    plan: Plan,
    phase: Phase,
    sequenceId: Uint32,
    piece: nat,
    complete: bool,
    retries: nat,
    sent: bool,
    posted: nat,
    log: seq<Entry>)

  function Fresh(plan: Plan): Machine {
    Machine(plan, Ready, 0, 0, false, 0, false, 0, [])
  }

  /** A count as a 32-bit field; the counts of a delivery are far below its limit. */
  function Number(k: nat): Uint32 {
    if k < 0x1_0000_0000 then k else 0xFFFF_FFFF
  }

  /** The pdu for piece k; past the last piece the code would send an empty one. */
  function PduOf(plan: Plan, id: Uint32, k: nat): Pdu {
    if !plan.cut && k == 0 then Pdu(None, if plan.parts == [] then [] else plan.parts[0])
    else Pdu(Some(if k == 0 then First(id, Number(|plan.parts|)) else Other(id, Number(k))),
             if k < |plan.parts| then plan.parts[k] else [])
  }

  function HandOver(m: Machine, k: nat, ok: bool): Machine {
    m.(piece := k, sent := ok, posted := m.posted + if ok then 0 else 1,
       log := m.log + [Invoke(PduOf(m.plan, m.sequenceId, k), ok)])
  }

  /**
   One event: `ok` says whether the transport takes an invocation made now, `id` is the next
   number of the sequence counter.
   */
  function Step(m: Machine, evt: nat, ok: bool, id: Uint32): Machine {
    match m.phase
    case Ready =>
      if evt == DELIVER_REQ then Begin(m, ok, id) else m.(phase := Done(Abandoned))
    case Waiting =>
      if evt == RESULT_IND then
        var answered := m.(log := m.log + [Result]);
        if m.complete then answered.(phase := Done(Succeeded))
        else HandOver(answered, m.piece + 1, ok).(complete := m.piece + 1 >= |m.plan.parts| - 1)
      else if evt == ERROR_IND then m.(phase := Done(Deleted))
      else if evt == FAILURE_IND then
        if m.retries + 1 >= MTS_MAX_FAILURE_RETRIES then m.(retries := m.retries + 1, phase := Done(Respooled))
        else if TooMany(m.plan) then m.(retries := m.retries + 1, phase := Undefined)
        else HandOver(m.(retries := m.retries + 1), m.piece, ok)
      else m.(phase := Done(Abandoned))
    case _ => m
  }

  /** The delivery request: cut, and hand over the first piece, or give up a content with too many pieces. */
  function Begin(m: Machine, ok: bool, id: Uint32): Machine {
    if TooMany(m.plan) then m.(phase := Waiting, sequenceId := id, sent := false, posted := m.posted + 1)
    else if m.plan.cut then HandOver(m.(phase := Waiting, sequenceId := id), 0, ok)
    else HandOver(m.(phase := Waiting), 0, ok).(complete := ok)
  }

  /** RESULT.ind and ERROR.ind answer an invocation the transport took; other events may come any time. */
  predicate Allowed(m: Machine, evt: nat) {
    (evt == RESULT_IND || evt == ERROR_IND) ==> m.sent
  }

  datatype Event = Event(evt: nat, ok: bool, id: Uint32)

  function Run(m: Machine, es: seq<Event>): Machine {
    if es == [] then m
    else
      var n := |es| - 1;
      Step(Run(m, es[..n]), es[n].evt, es[n].ok, es[n].id)
  }

  lemma {:induction false} RunOne(m: Machine, es: seq<Event>, e: Event)
    ensures Run(m, es + [e]) == Step(Run(m, es), e.evt, e.ok, e.id)
  {
    assert (es + [e])[..|es|] == es;
  }

  ghost predicate AllowedRun(m: Machine, es: seq<Event>) {
    forall i :: 0 <= i < |es| ==> Allowed(Run(m, es[..i]), es[i].evt)
  }

  /** A run of a delivery: a request, then anything the environment may do. */
  ghost predicate DeliveryRun(plan: Plan, es: seq<Event>) {
    && PlanOk(plan)
    && es != [] && es[0].evt == DELIVER_REQ
    && AllowedRun(Fresh(plan), es)
  }

  // ---------- what every run keeps ----------

  function Results(log: seq<Entry>): nat {
    if log == [] then 0 else Results(log[..|log| - 1]) + if log[|log| - 1].Result? then 1 else 0
  }

  function Invokes(log: seq<Entry>): nat {
    if log == [] then 0 else Invokes(log[..|log| - 1]) + if log[|log| - 1].Invoke? then 1 else 0
  }

  /**
   The log in order: every invocation carries the piece whose number is how many results came
   before it, and every result directly follows an invocation the transport took.
   */
  ghost predicate InOrder(plan: Plan, id: Uint32, log: seq<Entry>) {
    log == [] ||
    var before := log[..|log| - 1];
    && InOrder(plan, id, before)
    && match log[|log| - 1]
       case Invoke(pdu, _) => pdu == PduOf(plan, id, Results(before))
       case Result => Outstanding(before)
  }

  /** The last entry is an invocation the transport took. */
  predicate Outstanding(log: seq<Entry>) {
    log != [] && log[|log| - 1].Invoke? && log[|log| - 1].ok
  }

  /** The number of results a complete run ends with; the first hand-over of an uncut message may fail. */
  function Needed(m: Machine): nat {
    if Slipped(m) then 2 else |m.plan.parts|
  }

  /** The transport refused the first hand-over of a message that is sent whole. */
  predicate Slipped(m: Machine) {
    !m.plan.cut && m.log != [] && m.log[0].Invoke? && !m.log[0].ok
  }

  /** How often the current piece, or one before it, was handed over again. */
  function Repeats(m: Machine): nat {
    if m.retries < MTS_MAX_FAILURE_RETRIES then m.retries else MTS_MAX_FAILURE_RETRIES - 1
  }

  ghost predicate Sound(m: Machine) {
    && PlanOk(m.plan)
    && InOrder(m.plan, m.sequenceId, m.log)
    && match m.phase
       case Ready => m == Fresh(m.plan)
       case Undefined => TooMany(m.plan)
       case Waiting =>
         && m.retries < MTS_MAX_FAILURE_RETRIES
         && (m.complete <==> m.piece == Needed(m) - 1)
         && if TooMany(m.plan) then m.log == [] && m.piece == 0 && m.retries == 0 && !m.sent else Underway(m)
       case Done(fate) =>
         if m.log == [] then fate.Abandoned?
         else
           && m.piece < Needed(m)
           && Invokes(m.log) == m.piece + 1 + Repeats(m)
           && (Slipped(m) && m.piece > 0 ==> m.retries > 0)
           && (fate.Succeeded? ==> Results(m.log) == Needed(m))
           && (fate.Respooled? <==> m.retries == MTS_MAX_FAILURE_RETRIES)
  }

  ghost predicate Underway(m: Machine) {
    && m.log != [] && m.log[|m.log| - 1] == Invoke(PduOf(m.plan, m.sequenceId, m.piece), m.sent)
    && Results(m.log) == m.piece < Needed(m)
    && Invokes(m.log) == m.piece + 1 + m.retries
    && (Slipped(m) && m.retries == 0 ==> m.piece == 0 && !m.sent)
  }

  lemma LogGrows(plan: Plan, id: Uint32, log: seq<Entry>, e: Entry)
    requires InOrder(plan, id, log)
    requires e.Invoke? ==> e.pdu == PduOf(plan, id, Results(log))
    requires e.Result? ==> Outstanding(log)
    ensures InOrder(plan, id, log + [e])
    ensures Results(log + [e]) == Results(log) + if e.Result? then 1 else 0
    ensures Invokes(log + [e]) == Invokes(log) + if e.Invoke? then 1 else 0
  {
    assert (log + [e])[..|log|] == log;
  }

  lemma HandOverLogged(m: Machine, k: nat, ok: bool)
    requires InOrder(m.plan, m.sequenceId, m.log) && Results(m.log) == k
    ensures var m' := HandOver(m, k, ok);
            && InOrder(m.plan, m.sequenceId, m'.log)
            && Results(m'.log) == k && Invokes(m'.log) == Invokes(m.log) + 1
            && (m.log != [] ==> Slipped(m') == Slipped(m))
  {
    LogGrows(m.plan, m.sequenceId, m.log, Invoke(PduOf(m.plan, m.sequenceId, k), ok));
  }

  lemma BeginKeepsSound(m: Machine, ok: bool, id: Uint32)
    requires m == Fresh(m.plan) && PlanOk(m.plan)
    ensures Sound(Begin(m, ok, id))
  {
    HandOverLogged(m.(phase := Waiting), 0, ok);
    HandOverLogged(m.(phase := Waiting, sequenceId := id), 0, ok);
  }

  lemma {:induction false} AnswerLogged(m: Machine)
    requires Sound(m) && m.phase.Waiting? && m.sent
    ensures var log := m.log + [Result];
            && InOrder(m.plan, m.sequenceId, log)
            && Results(log) == m.piece + 1 && Invokes(log) == m.piece + 1 + m.retries
            && Slipped(m.(log := log)) == Slipped(m)
  {
    LogGrows(m.plan, m.sequenceId, m.log, Result);
  }

  lemma ResultKeepsSound(m: Machine, ok: bool, id: Uint32)
    requires Sound(m) && m.phase.Waiting? && m.sent
    ensures Sound(Step(m, RESULT_IND, ok, id))
  {
    AnswerLogged(m);
    if !m.complete {
      NextKeepsSound(m, ok, id);
    }
  }

  lemma NextKeepsSound(m: Machine, ok: bool, id: Uint32)
    requires Sound(m) && m.phase.Waiting? && m.sent && !m.complete
    ensures Sound(Step(m, RESULT_IND, ok, id))
  {
    AnswerLogged(m);
    var answered := m.(log := m.log + [Result]);
    HandOverLogged(answered, m.piece + 1, ok);
    var m' := Step(m, RESULT_IND, ok, id);
    assert m'.log == HandOver(answered, m.piece + 1, ok).log;
    assert Needed(m') == Needed(m) && m'.plan == m.plan && m'.sequenceId == m.sequenceId;
    assert m'.complete <==> m'.piece == Needed(m') - 1;
    assert Underway(m');
  }

  lemma FailureKeepsSound(m: Machine, ok: bool, id: Uint32)
    requires Sound(m) && m.phase.Waiting?
    ensures Sound(Step(m, FAILURE_IND, ok, id))
  {
    if m.retries + 1 < MTS_MAX_FAILURE_RETRIES && !TooMany(m.plan) {
      HandOverLogged(m.(retries := m.retries + 1), m.piece, ok);
    }
  }

  lemma StopKeepsSound(m: Machine, fate: Fate)
    requires Sound(m) && m.phase.Waiting? && (fate.Abandoned? || (fate.Deleted? && m.sent))
    ensures Sound(m.(phase := Done(fate)))
  {
  }

  lemma {:induction false} StepKeepsPlan(m: Machine, e: Event)
    ensures Step(m, e.evt, e.ok, e.id).plan == m.plan
    ensures e.evt == DELIVER_REQ || !m.phase.Ready? ==> !Step(m, e.evt, e.ok, e.id).phase.Ready?
  {
  }

  lemma {:induction false} ReadyKeepsSound(m: Machine, e: Event)
    requires Sound(m) && m.phase.Ready?
    ensures Sound(Step(m, e.evt, e.ok, e.id))
  {
    if e.evt == DELIVER_REQ {
      BeginKeepsSound(m, e.ok, e.id);
    }
  }

  lemma {:induction false} StepKeepsSound(m: Machine, e: Event)
    requires Sound(m) && Allowed(m, e.evt)
    ensures Sound(Step(m, e.evt, e.ok, e.id))
    ensures Step(m, e.evt, e.ok, e.id).plan == m.plan
    ensures e.evt == DELIVER_REQ || !m.phase.Ready? ==> !Step(m, e.evt, e.ok, e.id).phase.Ready?
  {
    StepKeepsPlan(m, e);
    if m.phase.Ready? {
      ReadyKeepsSound(m, e);
    } else if !m.phase.Waiting? {
    } else if e.evt == RESULT_IND {
      ResultKeepsSound(m, e.ok, e.id);
    } else if e.evt == FAILURE_IND {
      FailureKeepsSound(m, e.ok, e.id);
    } else {
      StopKeepsSound(m, if e.evt == ERROR_IND then Deleted else Abandoned);
    }
  }

  // ---------- what holds of every run ----------

  lemma {:induction false} RunSound(plan: Plan, es: seq<Event>)
    requires DeliveryRun(plan, es)
    ensures Sound(Run(Fresh(plan), es))
    ensures !Run(Fresh(plan), es).phase.Ready? && Run(Fresh(plan), es).plan == plan
  {
    var n := |es| - 1;
    var before := Run(Fresh(plan), es[..n]);
    assert Allowed(before, es[n].evt);
    if n == 0 {
      assert es[..0] == [];
      FreshSound(plan);
    } else {
      PrefixIsRun(plan, es, n);
      RunSound(plan, es[..n]);
    }
    StepKeepsSound(before, es[n]);
  }

  lemma FreshSound(plan: Plan)
    requires PlanOk(plan)
    ensures Sound(Fresh(plan))
  {
  }

  lemma {:induction false} PrefixIsRun(plan: Plan, es: seq<Event>, n: nat)
    requires DeliveryRun(plan, es) && 0 < n <= |es|
    ensures DeliveryRun(plan, es[..n])
  {
    forall i | 0 <= i < n ensures Allowed(Run(Fresh(plan), es[..n][..i]), es[..n][i].evt) {
      assert es[..n][..i] == es[..i];
    }
  }

  function Refused(log: seq<Entry>): nat {
    if log == [] then 0
    else Refused(log[..|log| - 1]) + if log[|log| - 1].Invoke? && !log[|log| - 1].ok then 1 else 0
  }

  lemma RefusedGrows(log: seq<Entry>, e: Entry)
    ensures Refused(log + [e]) == Refused(log) + if e.Invoke? && !e.ok then 1 else 0
  {
    assert (log + [e])[..|log|] == log;
  }

  /** Failures posted that no refused hand-over accounts for. */
  function Unexplained(m: Machine): int {
    m.posted - Refused(m.log)
  }

  lemma HandOverPosts(m: Machine, k: nat, ok: bool)
    ensures Unexplained(HandOver(m, k, ok)) == Unexplained(m)
  {
    RefusedGrows(m.log, Invoke(PduOf(m.plan, m.sequenceId, k), ok));
  }

  lemma BeginPosts(m: Machine, ok: bool, id: Uint32)
    ensures Unexplained(Begin(m, ok, id)) == Unexplained(m) + if TooMany(m.plan) then 1 else 0
  {
    HandOverPosts(m.(phase := Waiting, sequenceId := id), 0, ok);
    HandOverPosts(m.(phase := Waiting), 0, ok);
  }

  lemma ResultPosts(m: Machine, ok: bool, id: Uint32)
    requires m.phase.Waiting?
    ensures Unexplained(Step(m, RESULT_IND, ok, id)) == Unexplained(m)
  {
    var answered := m.(log := m.log + [Result]);
    RefusedGrows(m.log, Result);
    assert Unexplained(answered) == Unexplained(m);
    HandOverPosts(answered, m.piece + 1, ok);
  }

  lemma FailurePosts(m: Machine, ok: bool, id: Uint32)
    requires m.phase.Waiting?
    ensures Unexplained(Step(m, FAILURE_IND, ok, id)) == Unexplained(m)
  {
    HandOverPosts(m.(retries := m.retries + 1), m.piece, ok);
  }

  lemma WaitingPosts(m: Machine, e: Event)
    requires m.phase.Waiting?
    ensures Unexplained(Step(m, e.evt, e.ok, e.id)) == Unexplained(m)
  {
    if e.evt == RESULT_IND {
      ResultPosts(m, e.ok, e.id);
    } else if e.evt == FAILURE_IND {
      FailurePosts(m, e.ok, e.id);
    }
  }

  lemma StepPosts(m: Machine, e: Event)
    requires m.phase.Ready? ==> e.evt == DELIVER_REQ
    ensures var m' := Step(m, e.evt, e.ok, e.id);
            && !m'.phase.Ready? && m'.plan == m.plan
            && Unexplained(m') == Unexplained(m) + if m.phase.Ready? && TooMany(m.plan) then 1 else 0
  {
    if m.phase.Ready? {
      BeginPosts(m, e.ok, e.id);
    } else if m.phase.Waiting? {
      WaitingPosts(m, e);
    }
  }

  /** In every run a failure is posted for each hand-over the transport refused, and for too many pieces, and no other. */
  lemma {:induction false} FailuresArePosted(plan: Plan, es: seq<Event>)
    requires es != [] && es[0].evt == DELIVER_REQ
    ensures var m := Run(Fresh(plan), es);
            && !m.phase.Ready? && m.plan == plan
            && m.posted == Refused(m.log) + if TooMany(plan) then 1 else 0
  {
    var n := |es| - 1;
    if n == 0 {
      assert es[..0] == [];
    } else {
      FailuresArePosted(plan, es[..n]);
    }
    StepPosts(Run(Fresh(plan), es[..n]), es[n]);
  }

  /** Piece k was taken by the transport after exactly k results, and its own result followed. */
  ghost predicate Acknowledged(plan: Plan, id: Uint32, log: seq<Entry>, k: nat) {
    exists p :: 0 <= p < |log| - 1 && log[p] == Invoke(PduOf(plan, id, k), true) && log[p + 1].Result?
                && Results(log[..p]) == k
  }

  lemma {:induction false} EachAcknowledged(plan: Plan, id: Uint32, log: seq<Entry>, k: nat)
    requires InOrder(plan, id, log) && k < Results(log)
    ensures Acknowledged(plan, id, log, k)
  {
    var n := |log| - 1;
    var front := log[..n];
    if log[n].Result? && Results(front) == k {
      var p := n - 1;
      assert front[..p] == log[..p] && front[p] == log[p];
      assert InOrder(plan, id, front);
      assert Results(front) == Results(log[..p]);
    } else {
      EachAcknowledged(plan, id, front, k);
      var p :| 0 <= p < |front| - 1 && front[p] == Invoke(PduOf(plan, id, k), true)
               && front[p + 1].Result? && Results(front[..p]) == k;
      assert log[p] == front[p] && log[p + 1] == front[p + 1] && log[..p] == front[..p];
    }
  }

  /**
   A message is marked delivered only after every piece was handed over in increasing order,
   each taken by the transport and answered by its own result before the next one was.
   */
  lemma {:induction false} DeliveredMeansAcknowledged(plan: Plan, es: seq<Event>)
    requires DeliveryRun(plan, es) && Run(Fresh(plan), es).phase == Done(Succeeded)
    ensures var m := Run(Fresh(plan), es);
            && InOrder(plan, m.sequenceId, m.log)
            && forall k :: 0 <= k < |plan.parts| ==> Acknowledged(plan, m.sequenceId, m.log, k)
  {
    RunSound(plan, es);
    var m := Run(Fresh(plan), es);
    forall k | 0 <= k < |plan.parts| ensures Acknowledged(plan, m.sequenceId, m.log, k) {
      EachAcknowledged(plan, m.sequenceId, m.log, k);
    }
  }

  lemma StepExtends(m: Machine, e: Event)
    requires m.log != [] && !m.phase.Ready?
    ensures Step(m, e.evt, e.ok, e.id).log != [] && Step(m, e.evt, e.ok, e.id).log[0] == m.log[0]
    ensures !Step(m, e.evt, e.ok, e.id).phase.Ready?
  {
  }

  /** The first entry is the hand-over made for the delivery request. */
  lemma {:induction false} FirstHandOver(plan: Plan, es: seq<Event>)
    requires es != [] && es[0].evt == DELIVER_REQ && !TooMany(plan)
    ensures var m := Run(Fresh(plan), es);
            m.log != [] && !m.phase.Ready? && m.log[0].Invoke? && m.log[0].ok == es[0].ok
  {
    var n := |es| - 1;
    if n == 0 {
      assert es[..0] == [];
    } else {
      FirstHandOver(plan, es[..n]);
      StepExtends(Run(Fresh(plan), es[..n]), es[n]);
    }
  }

  /**
   A delivery hands over at most one pdu more than it has pieces, all retries together, if and only if
   it is cut, or the transport took the first hand-over of the whole message, or that is all the run
   came to; otherwise it hands over one more.
   */
  lemma {:induction false} InvokesAreBounded(plan: Plan, es: seq<Event>)
    requires DeliveryRun(plan, es) && !Run(Fresh(plan), es).phase.Undefined?
    ensures var m := Run(Fresh(plan), es);
            && (Invokes(m.log) <= |plan.parts| + MTS_MAX_FAILURE_RETRIES - 1
                <==> plan.cut || es[0].ok || m.piece == 0)
            && Invokes(m.log) <= |plan.parts| + MTS_MAX_FAILURE_RETRIES
  {
    RunSound(plan, es);
    if !TooMany(plan) {
      FirstHandOver(plan, es);
    }
    CountsByPiece(Run(Fresh(plan), es), es[0].ok);
  }

  lemma CountsByPiece(m: Machine, ok: bool)
    requires Sound(m) && !m.phase.Undefined? && !m.phase.Ready?
    requires !TooMany(m.plan) ==> m.log != [] && m.log[0].Invoke? && m.log[0].ok == ok
    ensures Invokes(m.log) <= |m.plan.parts| + MTS_MAX_FAILURE_RETRIES - 1 <==> m.plan.cut || ok || m.piece == 0
    ensures Invokes(m.log) <= |m.plan.parts| + MTS_MAX_FAILURE_RETRIES
  {
  }

  lemma {:induction false} OneMoreInvoke(log: seq<Entry>, e: Entry)
    ensures Invokes(log + [e]) == Invokes(log) + if e.Invoke? then 1 else 0
  {
    assert (log + [e])[..|log|] == log;
  }

  /** Counting invocations in a log of four entries. */
  lemma {:induction false} ThreeInvokes(a: Entry, b: Entry, c: Entry, d: Entry)
    requires a.Invoke? && b.Invoke? && c.Result? && d.Invoke?
    ensures Invokes([a, b, c, d]) == 3
  {
    OneMoreInvoke([], a);
    OneMoreInvoke([a], b);
    OneMoreInvoke([a, b], c);
    OneMoreInvoke([a, b, c], d);
    assert [] + [a] == [a] && [a] + [b] == [a, b] && [a, b] + [c] == [a, b, c] && [a, b, c] + [d] == [a, b, c, d];
  }

  /** The three steps of the run, one after the other. */
  lemma {:induction false} RefusedSteps(plan: Plan, id: Uint32) returns (m1: Machine, m2: Machine, m3: Machine)
    requires PlanOk(plan) && !plan.cut
    ensures m1 == Step(Fresh(plan), DELIVER_REQ, false, id) && m1.phase.Waiting?
    ensures m2 == Step(m1, FAILURE_IND, true, id) && m2.phase.Waiting? && m2.sent
    ensures m3 == Step(m2, RESULT_IND, true, id) && m3.plan == plan
    ensures var whole := PduOf(plan, 0, 0);
            m3.log == [Invoke(whole, false), Invoke(whole, true), Result, Invoke(Pdu(Some(Other(0, 1)), []), true)]
  {
    m1 := Step(Fresh(plan), DELIVER_REQ, false, id);
    var whole := PduOf(plan, 0, 0);
    assert m1.log == [Invoke(whole, false)];
    m2 := Step(m1, FAILURE_IND, true, id);
    assert m2.log == [Invoke(whole, false), Invoke(whole, true)];
    m3 := Step(m2, RESULT_IND, true, id);
  }

  /** Whatever the message: refused once, repeated and answered, it is followed by the extra piece. */
  lemma {:induction false} RefusedWholeMessageExceeds(plan: Plan, id: Uint32)
    requires PlanOk(plan) && !plan.cut
    ensures var es := [Event(DELIVER_REQ, false, id), Event(FAILURE_IND, true, id), Event(RESULT_IND, true, id)];
            var m := Run(Fresh(plan), es);
            && DeliveryRun(plan, es) && Slipped(m)
            && Invokes(m.log) == |plan.parts| + MTS_MAX_FAILURE_RETRIES
            && m.log[|m.log| - 1] == Invoke(Pdu(Some(Other(0, 1)), []), true)
  {
    var e0, e1, e2 := Event(DELIVER_REQ, false, id), Event(FAILURE_IND, true, id), Event(RESULT_IND, true, id);
    var es := [e0, e1, e2];
    var m1, m2, m3 := RefusedSteps(plan, id);
    assert es[..0] == [] && es[..1] == [] + [e0] && es[..2] == [e0] + [e1] && es == [e0, e1] + [e2];
    RunOne(Fresh(plan), [], e0);
    RunOne(Fresh(plan), [e0], e1);
    RunOne(Fresh(plan), [e0, e1], e2);
    ThreeInvokes(m3.log[0], m3.log[1], m3.log[2], m3.log[3]);
  }

  /** The retries are shared by all pieces and never reset, so every event brings the end nearer. */
  lemma {:induction false} WaitingIsShort(plan: Plan, es: seq<Event>)
    requires DeliveryRun(plan, es) && Run(Fresh(plan), es).phase.Waiting?
    ensures var m := Run(Fresh(plan), es); m.piece + m.retries == |es| - 1
  {
    var n := |es| - 1;
    var before := Run(Fresh(plan), es[..n]);
    if n == 0 {
      assert es[..0] == [];
    } else {
      PrefixIsRun(plan, es, n);
      RunSound(plan, es[..n]);
      StepAdvances(before, es[n]);
      WaitingIsShort(plan, es[..n]);
    }
  }

  lemma StepAdvances(m: Machine, e: Event)
    requires !m.phase.Ready? && Step(m, e.evt, e.ok, e.id).phase.Waiting?
    ensures m.phase.Waiting?
    ensures var m' := Step(m, e.evt, e.ok, e.id); m'.piece + m'.retries == m.piece + m.retries + 1
  {
  }

  /** Every delivery comes to an end, whatever the order of results, errors and failures. */
  lemma {:induction false} DeliveryEnds(plan: Plan, es: seq<Event>)
    requires DeliveryRun(plan, es)
    requires |es| >= (if plan.cut then |plan.parts| else 2) + MTS_MAX_FAILURE_RETRIES
    ensures var phase := Run(Fresh(plan), es).phase; phase.Done? || phase.Undefined?
  {
    RunSound(plan, es);
    var m := Run(Fresh(plan), es);
    if m.phase.Waiting? {
      WaitingIsShort(plan, es);
      WaitingIsBounded(m);
    }
  }

  lemma WaitingIsBounded(m: Machine)
    requires Sound(m) && m.phase.Waiting?
    ensures m.piece < (if m.plan.cut then |m.plan.parts| else 2) && m.retries < MTS_MAX_FAILURE_RETRIES
    ensures m.piece + m.retries < (if m.plan.cut then |m.plan.parts| else 2) + MTS_MAX_FAILURE_RETRIES - 1
  {
  }

  /** What becomes of the message is decided by the event that ends the delivery, and only by it. */
  lemma {:induction false} FateByLastEvent(plan: Plan, es: seq<Event>, e: Event)
    requires DeliveryRun(plan, es + [e])
    requires es != [] && Run(Fresh(plan), es).phase.Waiting?
    ensures var m := Run(Fresh(plan), es + [e]);
            && (m.phase == Done(Succeeded) ==> e.evt == RESULT_IND)
            && (m.phase == Done(Deleted) <==> e.evt == ERROR_IND)
            && (m.phase == Done(Respooled) ==> e.evt == FAILURE_IND)
            && (m.phase == Done(Abandoned) <==> e.evt !in {RESULT_IND, ERROR_IND, FAILURE_IND})
            && (m.phase == Undefined <==> e.evt == FAILURE_IND && TooMany(plan))
  {
    assert (es + [e])[..|es|] == es;
    PrefixIsRun(plan, es + [e], |es|);
    RunSound(plan, es);
  }

  // ---------- the code ----------

  datatype State = S1Idle | S2InvokeResponseWait
  datatype Predicate = PS2S1a | PS2S1b | PS2S1d
  datatype Action = AS1S2a | AS2S1a | AS2S1b | AS2S1c | AS2S1d | AS2S2a | AS2S2b | AUnexpectedEvent

  type Table = seq<Row<Predicate, Action, State>>

  const T1_IDLE: Table := [
    Row(DELIVER_REQ, None, Some(AS1S2a), S2InvokeResponseWait),
    Row(FSM_EVT_DEFAULT, None, Some(AUnexpectedEvent), S1Idle)]

  const T2_INVOKE_RESPONSE_WAIT: Table := [
    Row(RESULT_IND, Some(PS2S1a), Some(AS2S1a), S1Idle),
    Row(RESULT_IND, None, Some(AS2S2a), S2InvokeResponseWait),
    Row(ERROR_IND, Some(PS2S1b), Some(AS2S1b), S1Idle),
    Row(ERROR_IND, None, Some(AS2S1c), S1Idle),
    Row(FAILURE_IND, Some(PS2S1d), Some(AS2S1d), S1Idle),
    Row(FAILURE_IND, None, Some(AS2S2b), S2InvokeResponseWait),
    Row(FSM_EVT_DEFAULT, None, Some(AUnexpectedEvent), S1Idle)]

  /** The row of the current state's table that an event takes; every ERROR.ind takes the permanent one. */
  function RowFor(m: Machine, evt: nat): nat {
    if m.phase.Ready? then (if evt == DELIVER_REQ then 0 else 1)
    else if evt == RESULT_IND then (if m.complete then 0 else 1)
    else if evt == ERROR_IND then 3
    else if evt == FAILURE_IND then (if m.retries + 1 >= MTS_MAX_FAILURE_RETRIES then 4 else 5)
    else 6
  }

  /** A machine is waiting once an action has run and has not finished the delivery. */
  function Settled(m: Machine): Machine {
    if m.phase.Ready? then m.(phase := Waiting) else m
  }

  predicate Ends(a: Action) {
    !a.AS1S2a? && !a.AS2S2a? && !a.AS2S2b?
  }

  /** What the actions do. */
  function Effect(a: Action, m: Machine, ok: bool, id: Uint32): Machine {
    match a
    case AS1S2a => Begin(m, ok, id)
    case AS2S1a => m.(phase := Done(Succeeded))
    case AS2S1b => m.(phase := Done(Respooled))
    case AS2S1c => m.(phase := Done(Deleted))
    case AS2S1d => m.(phase := Done(Respooled))
    case AS2S2a => HandOver(m, m.piece + 1, ok).(complete := m.piece + 1 >= |m.plan.parts| - 1)
    case AS2S2b => if TooMany(m.plan) then m.(phase := Undefined) else HandOver(m, m.piece, ok)
    case AUnexpectedEvent => m.(phase := Done(Abandoned))
  }

  /** The row of the current state's table that an event takes. */
  function TakenRow(m: Machine, evt: nat): Row<Predicate, Action, State>
    requires m.phase.Ready? || m.phase.Waiting?
  {
    if m.phase.Ready? then T1_IDLE[RowFor(m, evt)] else T2_INVOKE_RESPONSE_WAIT[RowFor(m, evt)]
  }

  /** The machine once the event is logged and the predicates above the row have been tried. */
  function Tried(m: Machine, evt: nat): Machine {
    m.(log := if evt == RESULT_IND then m.log + [Result] else m.log,
       retries := if m.phase.Waiting? && evt == FAILURE_IND then m.retries + 1 else m.retries)
  }

  /** Taking the row for an event is what Step says. */
  lemma TableIsStep(m: Machine, evt: nat, ok: bool, id: Uint32)
    requires m.phase.Ready? || m.phase.Waiting?
    requires m.phase.Ready? ==> evt != RESULT_IND
    ensures var row := TakenRow(m, evt);
            && row.act.Some?
            && Step(m, evt, ok, id) == Effect(row.act.value, Tried(m, evt), ok, id)
            && (row.act.value.AS2S2a? ==> !m.complete && evt == RESULT_IND)
            && (if row.act.value.AS1S2a? then m.phase.Ready? else row.act.value.AUnexpectedEvent? || m.phase.Waiting?)
            && !Step(m, evt, ok, id).phase.Ready?
            && (Step(m, evt, ok, id).phase.Waiting? ==> row.next.S2InvokeResponseWait?)
  {
  }

  /** What the fields say after the delivery request is what Begin says. */
  lemma BeginIs(m: Machine, m': Machine, ok: bool, id: Uint32)
    requires PlanOk(m.plan) && m == Fresh(m.plan) && m'.plan == m.plan && m'.phase.Waiting? && m'.retries == 0
    requires m'.piece == 0 && m'.sequenceId == (if m.plan.cut then id else 0)
    requires m'.complete == (!m.plan.cut && ok)
    requires m'.posted == if TooMany(m.plan) || !ok then 1 else 0
    requires if TooMany(m.plan) then !m'.sent && m'.log == m.log
             else m'.sent == ok && m'.log == m.log + [Invoke(PduOf(m.plan, m'.sequenceId, 0), ok)]
    ensures m' == Begin(m, ok, id)
  {
  }

  lemma NextIs(m: Machine, m': Machine, k: nat, ok: bool, id: Uint32)
    requires m'.plan == m.plan && m'.phase == m.phase && m'.sequenceId == m.sequenceId && m'.retries == m.retries
    requires k == m.piece + 1 == m'.piece && m'.sent == ok && (m'.complete <==> k >= |m.plan.parts| - 1)
    requires m'.posted == m.posted + if ok then 0 else 1
    requires m'.log == m.log + [Invoke(PduOf(m.plan, m.sequenceId, k), ok)]
    ensures m' == Effect(AS2S2a, m, ok, id)
  {
  }

  /** The fields of MTS_Operation that deliver.c works with, and its state machine. */
  class Operation {
    const hFullPduBuf: Bytes
    ghost const plan: Plan              // PlanFor(hFullPduBuf)
    var parsePosition: nat              // of hFullPduBuf
    var segmentInfo: Option<SegmentInfo> // of the deliver argument
    var hCurrentBuf: Option<Pdu>
    var hOperationData: Option<nat>     // the error request of an ERROR.ind
    var bComplete: bool
    var sequenceId: Uint32
    var lastSegmentNumber: nat
    var nextSegmentNumber: nat
    var segmentLength: nat
    var retryCount: nat
    var curState: State
    var freed: bool
    /** What was done with the message in the delivery queue. */
    var fate: Fate
    /** FAILURE.ind events generated for the operation's own machine. */
    var posted: nat
    ghost var sent: bool
    ghost var undefined: bool
    ghost var log: seq<Entry>

    constructor (content: Bytes)
      ensures Valid() && View() == Fresh(PlanFor(content)) && hFullPduBuf == content
    {
      hFullPduBuf, plan := content, PlanFor(content);
      parsePosition, segmentInfo, hCurrentBuf, hOperationData := 0, None, None, None;
      bComplete, sequenceId, lastSegmentNumber, nextSegmentNumber, segmentLength, retryCount := false, 0, 0, 0, 0, 0;
      curState, freed, fate := S1Idle, false, Abandoned;
      posted, sent, undefined, log := 0, false, false, [];
      PlanIsExact(content);
    }

    ghost function View(): Machine
      reads this
    {
      Machine(plan,
              if undefined then Undefined else if freed then Done(fate)
              else if curState.S1Idle? then Ready else Waiting,
              sequenceId, if nextSegmentNumber == 0 then 0 else nextSegmentNumber - 1,
              bComplete, retryCount, sent, posted, log)
    }

    ghost predicate Valid()
      reads this
    {
      && hOperationData.None? && PlanMatches()
      && (View().phase.Ready? ==>
            && segmentInfo.None? && hCurrentBuf.None? && parsePosition == 0 && segmentLength == 0 && fate.Abandoned?
            && lastSegmentNumber == nextSegmentNumber == 0 && View() == Fresh(plan))
      && (View().phase.Waiting? ==> fate.Abandoned? && Sending())
    }

    /** The plan says what the code computes from the length and the octets. */
    ghost predicate PlanMatches() {
      var len := |hFullPduBuf|;
      && PlanOk(plan)
      && (plan.cut <==> NeedsCutting(len))
      && (TooMany(plan) <==> TooManySegments(len))
      && (if plan.cut then |plan.parts| == NumSegments(len) else plan.parts == [hFullPduBuf])
      && (plan.cut ==> forall k :: 0 <= k < |plan.parts| ==> plan.parts[k] == PieceOf(hFullPduBuf, k))
    }

    /** The code's own fields while pieces are going out. */
    ghost predicate Sending()
      reads this
    {
      if TooMany(plan) then hCurrentBuf.None? && nextSegmentNumber == 0 && !bComplete && !sent
      else
        && nextSegmentNumber >= 1
        && hCurrentBuf == Some(PduOf(plan, sequenceId, nextSegmentNumber - 1))
        && if plan.cut then
             && segmentLength == SEGMENT_LENGTH && lastSegmentNumber == |plan.parts| - 1
             && parsePosition == Start(|hFullPduBuf|, nextSegmentNumber)
             && nextSegmentNumber <= lastSegmentNumber + 1
             && (bComplete <==> nextSegmentNumber > lastSegmentNumber)
           else
             && segmentLength == lastSegmentNumber == parsePosition == 0
             && nextSegmentNumber <= 2 && (!bComplete ==> nextSegmentNumber == 1)
    }

    /** BUF_cloneBufferPortion: the next `n` octets or the rest, moving the parse position on. */
    method Clone(n: nat, ghost k: nat) returns (portion: Bytes)
      requires parsePosition <= |hFullPduBuf|
      modifies this`parsePosition
      ensures n == SEGMENT_LENGTH && old(parsePosition) == Start(|hFullPduBuf|, k) ==>
                portion == PieceOf(hFullPduBuf, k) && parsePosition == Start(|hFullPduBuf|, k + 1)
      ensures n == 0 ==> portion == [] && parsePosition == old(parsePosition)
    {
      StartNext(|hFullPduBuf|, k);
      var end := if parsePosition + n <= |hFullPduBuf| then parsePosition + n else |hFullPduBuf|;
      portion := hFullPduBuf[parsePosition..end];
      parsePosition := end;
    }

    /** formatAndInvoke, for a transport that takes the invocation or not. */
    method FormatAndInvoke(contents: Bytes, ok: bool) returns (rc: bool)
      modifies this`hCurrentBuf, this`sent, this`log
      ensures rc == ok && sent == ok
      ensures hCurrentBuf == Some(Pdu(segmentInfo, contents)) && log == old(log) + [Invoke(Pdu(segmentInfo, contents), ok)]
    {
      hCurrentBuf := Some(Pdu(segmentInfo, contents));
      rc := IssueInvoke(ok);
    }

    method IssueInvoke(ok: bool) returns (rc: bool)
      requires hCurrentBuf.Some?
      modifies this`sent, this`log
      ensures rc == ok && sent == ok && log == old(log) + [Invoke(hCurrentBuf.value, ok)]
    {
      sent, log := ok, log + [Invoke(hCurrentBuf.value, ok)];
      rc := ok;
    }

    method Evaluate(p: Predicate) returns (holds: bool)
      modifies this`retryCount
      ensures p.PS2S1a? ==> holds == bComplete && retryCount == old(retryCount)
      ensures p.PS2S1b? ==> holds == (hOperationData == Some(ERROR_RESOURCE)) && retryCount == old(retryCount)
      ensures p.PS2S1d? ==> holds == (retryCount >= MTS_MAX_FAILURE_RETRIES) && retryCount == old(retryCount) + 1
    {
      match p
      case PS2S1a => holds := bComplete;
      case PS2S1b => holds := hOperationData.Some? && hOperationData.value == ERROR_RESOURCE;
      case PS2S1d =>
        retryCount := retryCount + 1;
        holds := !(retryCount < MTS_MAX_FAILURE_RETRIES);
    }

    /** FSM_generateEvent of a FAILURE.ind, which arrives as a later event. */
    method PostFailure()
      modifies this`posted
      ensures posted == old(posted) + 1
    {
      posted := posted + 1;
    }

    /** The pdu is handed over; a failure of that is posted. */
    method Transmit(contents: Bytes, ok: bool)
      modifies this`hCurrentBuf, this`posted, this`sent, this`log
      ensures hCurrentBuf == Some(Pdu(segmentInfo, contents)) && sent == ok
      ensures posted == old(posted) + if ok then 0 else 1
      ensures log == old(log) + [Invoke(Pdu(segmentInfo, contents), ok)]
    {
      var rc := FormatAndInvoke(contents, ok);
      if !rc {
        PostFailure();
      }
    }

    /** aS1S2a. */
    method DeliverRequest(ok: bool, id: Uint32)
      requires Valid() && View().phase.Ready?
      modifies this
      ensures hOperationData.None? && fate.Abandoned? && Sending()
      ensures Settled(View()) == Effect(AS1S2a, old(View()), ok, id)
    {
      var len := |hFullPduBuf| + MAX_DELIVER_ARG;
      ghost var m := View();
      if len > MAX_CONNECTIONLESS && len < MIN_CONNECTION_ORIENTED {
        StartCutting(ok, id);
      } else {
        SendWhole(ok);
      }
      BeginIs(m, Settled(View()), ok, id);
    }

    method CountSegments() returns (n: nat)
      requires PlanMatches() && plan.cut
      ensures n == |plan.parts|
    {
      var len, segmentLen := |hFullPduBuf|, MAX_CONNECTIONLESS - MAX_DELIVER_ARG;
      n := len / segmentLen + if len % segmentLen != 0 then 1 else 0;
    }

    method StartCutting(ok: bool, id: Uint32)
      requires Valid() && View().phase.Ready? && plan.cut
      modifies this
      ensures hOperationData.None? && fate.Abandoned? && Sending() && !freed && !undefined
      ensures sequenceId == id && !bComplete && retryCount == old(retryCount)
      ensures posted == old(posted) + if TooMany(plan) || !ok then 1 else 0
      ensures if TooMany(plan) then nextSegmentNumber == 0 && !sent && log == old(log)
              else nextSegmentNumber == 1 && sent == ok && log == old(log) + [Invoke(PduOf(plan, id, 0), ok)]
    {
      var numSegments := CountSegments();
      parsePosition, sequenceId, segmentLength := 0, id, SEGMENT_LENGTH;
      if numSegments > MTSUA_MAX_SEGMENTS {
        sent := false;
        PostFailure();
        return;
      }
      var contents := CutFirst(numSegments);
      Transmit(contents, ok);
    }

    method CutFirst(numSegments: nat) returns (contents: Bytes)
      requires PlanMatches() && plan.cut && numSegments == |plan.parts|
      requires segmentLength == SEGMENT_LENGTH && parsePosition == 0
      modifies this`lastSegmentNumber, this`nextSegmentNumber, this`segmentInfo, this`parsePosition
      ensures nextSegmentNumber == 1 && lastSegmentNumber == |plan.parts| - 1
      ensures Pdu(segmentInfo, contents) == PduOf(plan, sequenceId, 0)
      ensures parsePosition == Start(|hFullPduBuf|, 1)
    {
      lastSegmentNumber, nextSegmentNumber := numSegments - 1, 1;
      segmentInfo := Some(First(sequenceId, Number(numSegments)));
      contents := Clone(segmentLength, 0);
    }

    method SendWhole(ok: bool)
      requires Valid() && View().phase.Ready? && !plan.cut
      modifies this
      ensures hOperationData.None? && fate.Abandoned? && Sending() && !freed && !undefined
      ensures sequenceId == 0 && bComplete == ok && retryCount == old(retryCount)
      ensures posted == old(posted) + if ok then 0 else 1
      ensures nextSegmentNumber == 1 && sent == ok && log == old(log) + [Invoke(PduOf(plan, 0, 0), ok)]
    {
      lastSegmentNumber := 0;
      nextSegmentNumber := 1;
      assert Pdu(segmentInfo, hFullPduBuf) == PduOf(plan, sequenceId, 0);
      var rc := FormatAndInvoke(hFullPduBuf, ok);
      if !rc {
        PostFailure();
        return;
      }
      bComplete := true;
    }

    /** Fill in the deliver argument for the next piece and take its octets. */
    method CutNext() returns (contents: Bytes)
      requires Sending() && PlanMatches() && !bComplete && !TooMany(plan)
      modifies this`segmentInfo, this`nextSegmentNumber, this`parsePosition
      ensures nextSegmentNumber == old(nextSegmentNumber) + 1
      ensures Pdu(segmentInfo, contents) == PduOf(plan, sequenceId, old(nextSegmentNumber))
      ensures plan.cut ==> parsePosition == Start(|hFullPduBuf|, nextSegmentNumber)
      ensures !plan.cut ==> parsePosition == 0
    {
      ghost var k := nextSegmentNumber;
      segmentInfo := Some(Other(sequenceId, Number(nextSegmentNumber)));
      nextSegmentNumber := nextSegmentNumber + 1;
      contents := Clone(segmentLength, k);
      assert contents == if k < |plan.parts| then plan.parts[k] else [];
    }

    /** aS2S2a: the next piece. */
    method NextPiece(ok: bool, ghost id: Uint32)
      requires Sending() && PlanMatches() && View().phase.Waiting? && !bComplete && !TooMany(plan)
      modifies this`segmentInfo, this`nextSegmentNumber, this`parsePosition, this`hCurrentBuf, this`bComplete,
               this`posted, this`sent, this`log
      ensures Sending()
      ensures View() == Effect(AS2S2a, old(View()), ok, id)
    {
      ghost var m, k := View(), nextSegmentNumber;
      assert m.piece + 1 == k;
      SendNext(ok);
      NextIs(m, View(), k, ok, id);
    }

    method SendNext(ok: bool)
      requires Sending() && PlanMatches() && !bComplete && !TooMany(plan)
      modifies this`segmentInfo, this`nextSegmentNumber, this`parsePosition, this`hCurrentBuf, this`bComplete,
               this`posted, this`sent, this`log
      ensures Sending()
      ensures nextSegmentNumber == old(nextSegmentNumber) + 1 && sent == ok
      ensures bComplete == (old(nextSegmentNumber) >= |plan.parts| - 1)
      ensures posted == old(posted) + if ok then 0 else 1
      ensures log == old(log) + [Invoke(PduOf(plan, sequenceId, old(nextSegmentNumber)), ok)]
    {
      ghost var k := nextSegmentNumber;
      assert if plan.cut then k <= lastSegmentNumber else k == 1;
      var contents := CutNext();
      Transmit(contents, ok);
      MarkLast();
      SendingAgain(k);
    }

    /** Completed status after the last segment. */
    method MarkLast()
      modifies this`bComplete
      ensures bComplete == (old(bComplete) || nextSegmentNumber > lastSegmentNumber)
    {
      if nextSegmentNumber > lastSegmentNumber {
        bComplete := true;
      }
    }

    /** What the fields are once piece k has followed another. */
    lemma {:induction false} SendingAgain(k: nat)
      requires !TooMany(plan) && k >= 1 && nextSegmentNumber == k + 1
      requires hCurrentBuf == Some(PduOf(plan, sequenceId, k)) && (bComplete <==> nextSegmentNumber > lastSegmentNumber)
      requires plan.cut ==>
                 && segmentLength == SEGMENT_LENGTH && lastSegmentNumber == |plan.parts| - 1 && k <= lastSegmentNumber
                 && parsePosition == Start(|hFullPduBuf|, k + 1)
      requires !plan.cut ==> segmentLength == lastSegmentNumber == parsePosition == 0 && k == 1
      ensures Sending()
    {
    }

    /** aS2S2b: hand the same pdu over again. Without one, what happens is undefined. */
    method Repeat(ok: bool, ghost id: Uint32)
      requires Sending() && View().phase.Waiting?
      modifies this`posted, this`sent, this`log, this`undefined
      ensures View().phase.Waiting? ==> Sending()
      ensures View() == Effect(AS2S2b, old(View()), ok, id)
    {
      if hCurrentBuf.None? {
        undefined := true;
      } else {
        var rc := IssueInvoke(ok);
        if !rc {
          PostFailure();
        }
      }
    }

    /** The actions that end a delivery: deal with the message, then mts_freeOperation. */
    method Finish(a: Action, ghost ok: bool, ghost id: Uint32)
      requires Ends(a) && !undefined && !freed && fate.Abandoned?
      modifies this`fate, this`freed
      ensures View() == Effect(a, old(View()), ok, id) && !View().phase.Waiting? && !View().phase.Ready?
    {
      match a {
        case AS2S1a => fate := Succeeded;
        case AS2S1b => fate := Respooled;
        case AS2S1c => fate := Deleted;
        case AS2S1d => fate := Respooled;
        case _ =>
      }
      freed := true;
    }

    /** Enter the row's state; the machine is still there when the operation was freed. */
    method MoveTo(next: State)
      requires PlanMatches() && hOperationData.None?
      requires Settled(View()).phase.Waiting? ==> next.S2InvokeResponseWait? && fate.Abandoned? && Sending()
      modifies this`curState
      ensures Valid() && View() == Settled(old(View()))
    {
      ghost var m := View();
      curState := next;
      assert View() == Settled(m);
    }

    /** The engine's loop over the rows of the current state. */
    method Choose(evt: nat) returns (taken: Row<Predicate, Action, State>)
      requires Valid() && (View().phase.Ready? || View().phase.Waiting?)
      modifies this`retryCount, this`log
      ensures taken == TakenRow(old(View()), evt) && View() == Tried(old(View()), evt)
    {
      var rows := if curState.S1Idle? then T1_IDLE else T2_INVOKE_RESPONSE_WAIT;
      ghost var m := View();
      var found := false;
      var row: nat := 0;
      while row < |rows| && !found
        invariant row <= RowFor(m, evt) < |rows| && (found ==> row == RowFor(m, evt))
        invariant log == m.log
        invariant retryCount == m.retries + if curState.S2InvokeResponseWait? && evt == FAILURE_IND
                                                && (row > 4 || (row == 4 && found)) then 1 else 0
        decreases |rows| - row, !found
      {
        if EvtsMatch(rows[row].evtId, evt) {
          if rows[row].pred.None? {
            found := true;
          } else {
            found := Evaluate(rows[row].pred.value);
          }
        }
        if !found {
          row := row + 1;
        }
      }
      if evt == RESULT_IND {
        log := log + [Result];
      }
      taken := rows[row];
    }

    /** The actions, by name. */
    method Perform(a: Action, ok: bool, id: Uint32)
      requires Valid() && (View().phase.Ready? || View().phase.Waiting?)
      requires if a.AS1S2a? then View().phase.Ready? else a.AUnexpectedEvent? || View().phase.Waiting?
      requires a.AS2S2a? ==> !bComplete && !TooMany(plan)
      modifies this
      ensures hOperationData.None?
      ensures Settled(View()) == Effect(a, old(View()), ok, id)
      ensures Settled(View()).phase.Waiting? ==> fate.Abandoned? && Sending()
    {
      match a
      case AS1S2a => DeliverRequest(ok, id);
      case AS2S2a => NextPiece(ok, id);
      case AS2S2b => Repeat(ok, id);
      case _ => Finish(a, ok, id);
    }

    /** FSM_runMachine: the table does what Step says, event by event. */
    method RunMachine(evt: nat, ok: bool, id: Uint32)
      requires Valid() && (View().phase.Ready? || View().phase.Waiting?) && Allowed(View(), evt)
      modifies this
      ensures Valid() && View() == Step(old(View()), evt, ok, id)
    {
      TableIsStep(View(), evt, ok, id);
      var row := Choose(evt);
      Perform(row.act.value, ok, id);
      MoveTo(row.next);
    }

    /**
     mts_errorIndication: the error request, if it parses, is put into a structure that is then not
     attached to the operation, and the event follows either way. So whatever it says, even a resource
     error, meant to be transient, it deletes the message.
     */
    method ErrorIndication(ghost parsed: Option<nat>, ok: bool, id: Uint32)
      requires Valid() && View().phase.Waiting? && View().sent
      modifies this
      ensures Valid() && View() == old(View()).(phase := Done(Deleted))
    {
      RunMachine(ERROR_IND, ok, id);
    }
  }
}
