/**
 One operation invoked by a device (mperform.c): submissions, whole or in segments, and what becomes
 of the message. Machine and Step are the meaning, event by event; Operation is the code, driven by
 the transition tables.
 */
module Performer {
  import opened Common
  import opened Fsm
  import opened Reassembly
  import Words
  import Cutting

  datatype OperationValue = Submission | DeliveryVerify | DeliveryControl | SubmissionVerify

  /** What hOperationData points to. */
  datatype Data = Submitted(arg: SubmitArg) | Verdict(sendMessage: bool) | Request

  /** What mts_preprocessInvokeIndication leaves in an operation. */
  datatype Invocation = Invocation(value: OperationValue, threeWay: bool, data: Data)

  datatype Event = Invoked(inv: Invocation) | Answered(sendMessage: bool) | Plain(evt: nat)

  /**
   What the rest of the system answers: the subscriber of the NSAP is known, the content is parsed
   and written to a file, the file is spooled, the timer for the mailer starts, the verify invocation
   is formatted.
   */
  datatype Env = Env(known: bool, parses: bool, spools: bool, starts: bool, verifies: bool, rule: ShiftRule)

  datatype State =
    | S1Idle
    | S2SubmitResultResponseWait
    | S3SubmitVerifyResponseWait
    | S4ErrorResponseWait
    | S5NotSubmitResultResponseWait

  datatype Phase = In(state: State) | Freed

  /** What happened to the submitted message. */
  datatype Entry = Spooled(content: Bytes) | ReportedNonDelivery | Removed

  /**
   `got` holds the submit arguments taken since the last first one; it is not read by Step. `armed`
   counts the segmentation timers started for this operation and not stopped.
   */
  datatype Machine = Machine(
    phase: Phase,
    value: OperationValue,
    threeWay: bool,
    data: Option<Data>,
    a: Assembly,
    file: Option<Bytes>,
    armed: nat,
    log: seq<Entry>,
    got: seq<SubmitArg>)

  const FRESH_MACHINE := Machine(In(S1Idle), Submission, false, None, FRESH, None, 0, [], [])

  function EvtId(e: Event): nat {
    match e case Invoked(_) => INVOKE_IND case Answered(_) => RESULT_IND case Plain(evt) => evt
  }

  /** Preprocessing: an invocation or an answer is put into the operation before the event is raised. */
  function Load(m: Machine, e: Event): Machine {
    match e
    case Invoked(inv) => m.(value := inv.value, threeWay := inv.threeWay, data := Some(inv.data))
    case Answered(send) => m.(data := Some(Verdict(send)))
    case Plain(_) => m
  }

  /** The segments taken, once one more is. */
  function Take(got: seq<SubmitArg>, arg: SubmitArg): seq<SubmitArg> {
    if arg.segmentInfo.Some? && arg.segmentInfo.value.Other? then got + [arg] else [arg]
  }

  /** A first segment of several starts the timer, whether or not one runs already; the last missing segment stops one. */
  function Armed(armed: nat, arg: SubmitArg, complete: bool): nat {
    if arg.segmentInfo.None? then armed
    else if arg.segmentInfo.value.First? then (if arg.segmentInfo.value.numSegments == 1 then armed else armed + 1)
    else if complete && armed > 0 then armed - 1
    else armed
  }

  /** A submission is collected: a segment goes to the assembly, a whole message is complete at once. */
  function Taken(a: Assembly, arg: SubmitArg, rule: ShiftRule): (bool, Assembly) {
    if arg.segmentInfo.Some? then Receive(a, arg, rule) else (true, a.(complete := true))
  }

  /** pS1S2a once the submission has been identified: collect it, and parse it when it is complete. */
  function Collect(m: Machine, arg: SubmitArg, env: Env): (bool, Machine) {
    var (ok, a) := Taken(m.a, arg, env.rule);
    if !ok then (false, m.(a := a))
    else
      var m' := m.(a := a, got := Take(m.got, arg), armed := Armed(m.armed, arg, a.complete));
      if !a.complete then (true, m')
      else if !Whole(a, arg).ipm || !env.parses then (false, m')
      else (true, m'.(file := Some(Whole(a, arg).contents)))
  }

  /** pS1S2a. */
  function Accept(m: Machine, env: Env): (bool, Machine) {
    if !env.known || !m.value.Submission? || !m.threeWay || m.data.None? || !m.data.value.Submitted? then (false, m)
    else Collect(m, m.data.value.arg, env)
  }

  /** The message is handed to the mailer. */
  function Spool(m: Machine, env: Env): Machine {
    var entries :=
      if m.file.None? || !env.spools then [ReportedNonDelivery]
      else if !env.starts then [Spooled(m.file.value), ReportedNonDelivery]
      else [Spooled(m.file.value)];
    m.(phase := Freed, log := m.log + entries)
  }

  function Remove(m: Machine): Machine {
    m.(phase := Freed, log := m.log + [Removed])
  }

  function AskToVerify(m: Machine, env: Env): Machine {
    if env.known && env.verifies then m.(phase := In(S3SubmitVerifyResponseWait), value := SubmissionVerify, threeWay := false)
    else m.(phase := In(S3SubmitVerifyResponseWait))
  }

  /** The event and its data have arrived; INVOKE.ind doubles as the default event of the tables. */
  function Step(m: Machine, e: Event, env: Env): Machine {
    var l, evt := Load(m, e), EvtId(e);
    match m.phase
    case Freed => m
    case In(S1Idle) =>
      var (ok, l') := Accept(l, env);
      if ok then l'.(phase := In(S2SubmitResultResponseWait))
      else if l'.value.DeliveryVerify? || l'.value.DeliveryControl? then l'.(phase := In(S5NotSubmitResultResponseWait))
      else l'.(phase := In(S4ErrorResponseWait))
    case In(S2SubmitResultResponseWait) =>
      if evt == RESULT_CON then (if l.a.complete then Spool(l, env) else l.(phase := In(S1Idle)))
      else if evt == FAILURE_IND then (if l.a.complete then AskToVerify(l, env) else l.(phase := In(S1Idle)))
      else if evt == TIMER_EXPIRED then l.(phase := Freed)
      else l
    case In(S3SubmitVerifyResponseWait) =>
      if evt == RESULT_IND then (if l.data == Some(Verdict(true)) then Spool(l, env) else Remove(l))
      else if evt == FAILURE_IND then Remove(l)
      else l.(phase := Freed)
    case _ => l.(phase := Freed)
  }

  /**
   What can happen to an operation: it is created for an invocation, later ones routed to it are
   later segments, and a result can only answer the verify request.
   */
  predicate Allowed(m: Machine, e: Event) {
    match e
    case Invoked(inv) =>
      && (inv.data.Submitted? <==> inv.value.Submission?)
      && (m.data.Some? ==> inv.data.Submitted? && inv.data.arg.segmentInfo.Some? && inv.data.arg.segmentInfo.value.Other?)
    case Answered(_) => m.data.Some? && m.value.SubmissionVerify?
    case Plain(evt) => m.data.Some? && evt != INVOKE_IND && evt != RESULT_IND
  }

  datatype Stimulus = Stimulus(event: Event, env: Env)

  function Run(m: Machine, es: seq<Stimulus>): Machine {
    if es == [] then m
    else
      var n := |es| - 1;
      Step(Run(m, es[..n]), es[n].event, es[n].env)
  }

  ghost predicate AllowedRun(m: Machine, es: seq<Stimulus>) {
    forall i :: 0 <= i < |es| ==> Allowed(Run(m, es[..i]), es[i].event)
  }

  // ---------- what every run keeps ----------

  /** The number a segment carries; a whole message counts as its only piece. */
  function Number(arg: SubmitArg): nat {
    if arg.segmentInfo.Some? && arg.segmentInfo.value.Other? then arg.segmentInfo.value.thisSegment else 0
  }

  /** These segments are the pieces of `parts`, each there once, under its number. */
  ghost predicate Make(got: seq<SubmitArg>, parts: seq<Bytes>) {
    && |got| == |parts|
    && (forall k :: 0 <= k < |got| ==> Number(got[k]) < |parts| && parts[Number(got[k])] == got[k].contents)
    && (forall j, k :: 0 <= j < k < |got| ==> Number(got[j]) != Number(got[k]))
  }

  /** The assembly holds exactly the segments taken. */
  ghost predicate Tracks(a: Assembly, got: seq<SubmitArg>) {
    && (forall k :: 0 <= k < |got| ==>
          Number(got[k]) in a.received && a.received[Number(got[k])] == got[k].contents)
    && (forall j, k :: 0 <= j < k < |got| ==> Number(got[j]) != Number(got[k]))
    && |a.received| == |got|
  }

  /** The first segment of an assembly under way. */
  predicate IsFirst(arg: SubmitArg) {
    arg.segmentInfo.Some? && arg.segmentInfo.value.First?
  }

  predicate IsOther(arg: SubmitArg) {
    arg.segmentInfo.Some? && arg.segmentInfo.value.Other?
  }

  /** The last invocation was a first segment, which any stray event in the idle state handles again. */
  predicate Restarts(m: Machine) {
    m.data.Some? && m.data.value.Submitted? && IsFirst(m.data.value.arg)
  }

  /** An operation that waits for segments. */
  ghost predicate Collecting(m: Machine) {
    && !m.a.complete && Sound(m.a) && Announced(m.a) && m.file.None? && m.log == []
    && (m.a.expected != {} ==> Tracks(m.a, m.got))
    && (Restarts(m) && m.a.first.Some? ==>
          m.a.first == Some(m.data.value.arg) && m.a.sequenceId == m.data.value.arg.segmentInfo.value.sequenceId)
    && (Restarts(m) ==> m.a.received.Keys <= {0})
    && (m.data.None? ==> m.a == FRESH)
  }

  /** An operation that has its whole message. */
  ghost predicate Collected(m: Machine) {
    m.a.complete && m.log == [] && m.file.Some? && exists parts :: Make(m.got, parts) && Join(parts) == m.file.value
  }

  ghost predicate Good(m: Machine) {
    match m.phase
    case Freed =>
      (m.log == [] || m.log == [ReportedNonDelivery] || m.log == [Removed]
       || (exists parts :: Make(m.got, parts)
             && (m.log == [Spooled(Join(parts))] || m.log == [Spooled(Join(parts)), ReportedNonDelivery])))
    case In(S1Idle) => Collecting(m) && (m.data.Some? ==> !m.value.SubmissionVerify?) && (Restarts(m) ==> m.a.first.Some?)
    case In(S2SubmitResultResponseWait) =>
      && m.data.Some? && !m.value.SubmissionVerify?
      && if m.a.complete then Collected(m) else Collecting(m) && (Restarts(m) ==> m.a.first.Some?)
    case In(S3SubmitVerifyResponseWait) => m.data.Some? && Collected(m)
    case _ => m.data.Some? && m.log == []
  }

  /** A message that comes in one piece. */
  lemma CollectWhole(m: Machine, arg: SubmitArg, env: Env)
    requires Collecting(m) && !(arg.segmentInfo.Some? && arg.segmentInfo.value.Other?)
    requires arg.segmentInfo.Some? ==> arg.segmentInfo.value.numSegments == 1
    requires Collect(m, arg, env).0
    ensures Collected(Collect(m, arg, env).1)
  {
    var m' := Collect(m, arg, env).1;
    var parts := [arg.contents];
    assert Join(parts) == arg.contents + Join([]);
    assert Make(m'.got, parts);
  }

  lemma CollectFirst(m: Machine, arg: SubmitArg, env: Env)
    requires Collecting(m) && m.data == Some(Submitted(arg)) && IsFirst(arg) && arg.segmentInfo.value.numSegments != 1
    requires Collect(m, arg, env).0
    ensures Collecting(Collect(m, arg, env).1) && Collect(m, arg, env).1.a.first.Some?
  {
    FirstKeepsSound(m.a, arg, env.rule);
    var a := Receive(m.a, arg, env.rule).1;
    assert Tracks(a, [arg]);
  }

  /** Taking a later segment keeps the assembly the collection of the segments taken. */
  lemma {:induction false} OtherTracked(a: Assembly, got: seq<SubmitArg>, arg: SubmitArg, rule: ShiftRule)
    requires Sound(a) && Tracks(a, got) && arg.segmentInfo.Some? && arg.segmentInfo.value.Other?
    requires Receive(a, arg, rule).0
    ensures Tracks(Receive(a, arg, rule).1, got + [arg])
  {
    var t: nat := arg.segmentInfo.value.thisSegment;
    var received := a.received[t := arg.contents];
    assert t !in a.received;
    assert received.Keys == a.received.Keys + {t};
    assert |received| == |received.Keys| == |a.received.Keys| + 1;
  }

  /** When all expected segments are there, their contents in order are the content. */
  lemma {:induction false} TracksMake(a: Assembly, got: seq<SubmitArg>)
    requires Sound(a) && a.complete && a.expected != {} && Tracks(a, got)
    ensures forall i :: 0 <= i <= a.last ==> i in a.received
    ensures Make(got, PiecesOf(a))
  {
    Words.BelowSize(a.last + 1);
    forall i | 0 <= i <= a.last ensures i in a.received {
      assert i in a.expected;
    }
    assert |a.received| == |a.received.Keys|;
    forall k | 0 <= k < |got| ensures Number(got[k]) <= a.last {
      assert Number(got[k]) in a.expected;
    }
  }

  /** A later segment that is taken, in the fields. */
  lemma CollectOtherIs(m: Machine, arg: SubmitArg, env: Env)
    requires IsOther(arg) && Collect(m, arg, env).0
    ensures var (ok, a) := Receive(m.a, arg, env.rule);
            var m' := Collect(m, arg, env).1;
            && ok && m' == m.(a := a, got := m.got + [arg], armed := m'.armed, file := m'.file)
            && m'.file == if a.complete then Some(Whole(a, arg).contents) else m.file
  {
  }

  lemma {:induction false} LastIsCollected(a: Assembly, got: seq<SubmitArg>, arg: SubmitArg)
    requires Sound(a) && a.complete && a.expected != {} && Tracks(a, got) && IsOther(arg)
    ensures exists parts :: Make(got, parts) && Join(parts) == Whole(a, arg).contents
  {
    TracksMake(a, got);
    assert Whole(a, arg).contents == Join(PiecesOf(a));
  }

  /** What a later segment that is taken leaves: an assembly in order, which holds what was taken. */
  lemma {:induction false} OtherReceived(a: Assembly, got: seq<SubmitArg>, arg: SubmitArg, rule: ShiftRule)
    requires Sound(a) && a.expected != {} && Tracks(a, got) && IsOther(arg) && Receive(a, arg, rule).0
    ensures var a' := Receive(a, arg, rule).1;
            Sound(a') && Tracks(a', got + [arg]) && a'.expected == a.expected && a'.first == a.first
  {
    OtherKeepsSound(a, arg, rule);
    OtherTracked(a, got, arg, rule);
  }

  lemma {:induction false} CollectOther(m: Machine, arg: SubmitArg, env: Env)
    requires Collecting(m) && m.data == Some(Submitted(arg)) && IsOther(arg)
    requires Collect(m, arg, env).0
    ensures var m' := Collect(m, arg, env).1; if m'.a.complete then Collected(m') else Collecting(m')
  {
    CollectOtherIs(m, arg, env);
    var a := Receive(m.a, arg, env.rule).1;
    OtherReceived(m.a, m.got, arg, env.rule);
    if a.complete {
      LastIsCollected(a, m.got + [arg], arg);
    }
  }

  lemma AcceptKeeps(m: Machine, env: Env)
    requires Collecting(m) && m.data.Some? && Accept(m, env).0
    ensures var m' := Accept(m, env).1;
            if m'.a.complete then Collected(m') else Collecting(m') && (Restarts(m') ==> m'.a.first.Some?)
  {
    var arg := m.data.value.arg;
    if arg.segmentInfo.Some? && arg.segmentInfo.value.Other? {
      CollectOther(m, arg, env);
    } else if arg.segmentInfo.None? || arg.segmentInfo.value.numSegments == 1 {
      CollectWhole(m, arg, env);
    } else {
      CollectFirst(m, arg, env);
    }
  }

  /** Whatever it says, the predicate of a submission leaves these alone. */
  lemma AcceptLeaves(l: Machine, env: Env)
    ensures var l' := Accept(l, env).1;
            l'.phase == l.phase && l'.log == l.log && l'.data == l.data && l'.value == l.value
  {
  }

  lemma LoadedCollects(m: Machine, e: Event)
    requires Good(m) && Allowed(m, e) && m.phase == In(S1Idle)
    ensures var l := Load(m, e); Collecting(l) && l.data.Some? && l.log == []
  {
  }

  lemma IdleKeepsGood(m: Machine, e: Event, env: Env)
    requires Good(m) && Allowed(m, e) && m.phase == In(S1Idle)
    ensures Good(Step(m, e, env))
  {
    var l := Load(m, e);
    LoadedCollects(m, e);
    AcceptLeaves(l, env);
    if Accept(l, env).0 {
      AcceptKeeps(l, env);
    }
  }

  lemma WaitKeepsGood(m: Machine, e: Event, env: Env)
    requires Good(m) && Allowed(m, e) && m.phase == In(S2SubmitResultResponseWait)
    ensures Good(Step(m, e, env))
  {
    var l := Load(m, e);
    assert if l.a.complete then Collected(l) else Collecting(l);
  }

  lemma VerifyKeepsGood(m: Machine, e: Event, env: Env)
    requires Good(m) && Allowed(m, e) && m.phase == In(S3SubmitVerifyResponseWait)
    ensures Good(Step(m, e, env))
  {
    assert Collected(Load(m, e));
  }

  lemma StepKeepsGood(m: Machine, e: Event, env: Env)
    requires Good(m) && Allowed(m, e)
    ensures Good(Step(m, e, env))
  {
    match m.phase
    case In(S1Idle) => IdleKeepsGood(m, e, env);
    case In(S2SubmitResultResponseWait) => WaitKeepsGood(m, e, env);
    case In(S3SubmitVerifyResponseWait) => VerifyKeepsGood(m, e, env);
    case _ =>
  }

  /** After the first event the sequence id of an operation never changes. */
  lemma KeyIsStable(m: Machine, e: Event, env: Env)
    requires Good(m) && Allowed(m, e) && m.data.Some?
    ensures Step(m, e, env).a.sequenceId == m.a.sequenceId
  {
    if m.phase == In(S1Idle) {
      AcceptKeepsKey(Load(m, e), env);
    }
  }

  lemma StepKeepsData(m: Machine, e: Event, env: Env)
    requires m.data.Some?
    ensures Step(m, e, env).data.Some?
  {
    AcceptKeepsData(Load(m, e), env);
  }

  lemma AcceptKeepsKey(l: Machine, env: Env)
    requires Restarts(l) ==> l.a.sequenceId == l.data.value.arg.segmentInfo.value.sequenceId
    ensures Accept(l, env).1.a.sequenceId == l.a.sequenceId
  {
  }

  lemma {:induction false} RunGood(es: seq<Stimulus>)
    requires AllowedRun(FRESH_MACHINE, es)
    ensures Good(Run(FRESH_MACHINE, es))
  {
    if es != [] {
      var n := |es| - 1;
      PrefixAllowed(es, n);
      RunGood(es[..n]);
      StepKeepsGood(Run(FRESH_MACHINE, es[..n]), es[n].event, es[n].env);
    }
  }

  lemma PrefixAllowed(es: seq<Stimulus>, n: nat)
    requires AllowedRun(FRESH_MACHINE, es) && n <= |es|
    ensures AllowedRun(FRESH_MACHINE, es[..n])
  {
    forall i | 0 <= i < n ensures Allowed(Run(FRESH_MACHINE, es[..n][..i]), es[..n][i].event) {
      assert es[..n][..i] == es[..i];
    }
  }

  // ---------- what holds of every run ----------

  /** In every run the message is spooled, or removed, or reported at most once, and never removed once spooled. */
  lemma SpooledAtMostOnce(es: seq<Stimulus>)
    requires AllowedRun(FRESH_MACHINE, es)
    ensures var log := Run(FRESH_MACHINE, es).log;
            && |log| <= 2
            && (|log| == 2 ==> log[0].Spooled? && log[1].ReportedNonDelivery?)
            && (Removed in log ==> log == [Removed])
  {
    RunGood(es);
  }

  /** In every run what is spooled is the join, in order, of the contents of the segments that were taken. */
  lemma {:induction false} SpoolsWhatWasTaken(es: seq<Stimulus>, i: nat)
    requires AllowedRun(FRESH_MACHINE, es)
    requires i < |Run(FRESH_MACHINE, es).log| && Run(FRESH_MACHINE, es).log[i].Spooled?
    ensures var m := Run(FRESH_MACHINE, es);
            exists parts :: Make(m.got, parts) && m.log[i].content == Join(parts)
  {
    RunGood(es);
  }

  /**
   What a step does to the message, in any run: it is spooled only when it is complete, on the
   confirmation of the result or the answer to send it; removed only on another answer, or a failure,
   while the verify request is open; and once anything has been done nothing more is.
   */
  lemma {:induction false} WhenItIsSpooled(es: seq<Stimulus>, s: Stimulus)
    requires AllowedRun(FRESH_MACHINE, es + [s])
    ensures var m, m' := Run(FRESH_MACHINE, es), Run(FRESH_MACHINE, es + [s]);
            && (m.log != [] ==> m' == m)
            && (m.log != m'.log && m'.log[0].Spooled? ==>
                  && m.a.complete && m.file == Some(m'.log[0].content)
                  && (|| (m.phase == In(S2SubmitResultResponseWait) && EvtId(s.event) == RESULT_CON)
                      || (m.phase == In(S3SubmitVerifyResponseWait) && s.event == Answered(true))))
            && (m.log != m'.log && m'.log[0].Removed? ==>
                  && m.a.complete && m.phase == In(S3SubmitVerifyResponseWait)
                  && (s.event == Answered(false) || EvtId(s.event) == FAILURE_IND))
  {
    assert (es + [s])[..|es|] == es && (es + [s])[|es|] == s;
    PrefixAllowed(es + [s], |es|);
    RunGood(es);
    var m := Run(FRESH_MACHINE, es);
    StepChangesLog(m, s);
  }

  lemma StepChangesLog(m: Machine, s: Stimulus)
    requires Good(m) && Allowed(m, s.event)
    ensures var m' := Step(m, s.event, s.env);
            && (m.log != [] ==> m' == m)
            && (m.log != m'.log && m'.log[0].Spooled? ==>
                  && m.a.complete && m.file == Some(m'.log[0].content)
                  && (|| (m.phase == In(S2SubmitResultResponseWait) && EvtId(s.event) == RESULT_CON)
                      || (m.phase == In(S3SubmitVerifyResponseWait) && s.event == Answered(true))))
            && (m.log != m'.log && m'.log[0].Removed? ==>
                  && m.a.complete && m.phase == In(S3SubmitVerifyResponseWait)
                  && (s.event == Answered(false) || EvtId(s.event) == FAILURE_IND))
  {
  }

  // ---------- segments that are not taken ----------

  /** The event brings segment t. */
  predicate Brings(e: Event, t: nat) {
    e.Invoked? && e.inv.data.Submitted? && IsOther(e.inv.data.arg) && e.inv.data.arg.segmentInfo.value.thisSegment == t
  }

  /** An operation that ends by an error, having done nothing with its message. */
  lemma {:induction false} ErrorEnds(m: Machine, es: seq<Stimulus>)
    requires m.phase == In(S4ErrorResponseWait) && es != []
    ensures var m' := Run(m, es);
            m'.phase.Freed? && m'.log == m.log && m'.a == m.a && m'.got == m.got && m'.armed == m.armed
  {
    var n := |es| - 1;
    if n > 0 {
      ErrorEnds(m, es[..n]);
    }
  }

  /** A segment that is there already is refused, and with it the whole message: nothing is ever spooled. */
  lemma {:induction false} DuplicateEndsSubmission(m: Machine, dup: Stimulus, es: seq<Stimulus>)
    requires Good(m) && m.phase == In(S1Idle) && Allowed(m, dup.event)
    requires exists t :: t in m.a.received && Brings(dup.event, t)
    ensures var m' := Step(m, dup.event, dup.env);
            && m'.phase == In(S4ErrorResponseWait) && m'.a == m.a && m'.got == m.got && m'.log == []
            && (es != [] ==> Run(m', es).phase.Freed? && Run(m', es).log == [])
  {
    var m' := Step(m, dup.event, dup.env);
    if es != [] {
      ErrorEnds(m', es);
    }
  }

  /** Segment t is awaited and missing. */
  ghost predicate Misses(m: Machine, t: nat) {
    && Good(m) && t in m.a.expected && t !in m.a.received && !m.a.complete && m.log == []
    && m.phase != In(S3SubmitVerifyResponseWait) && m.data.Some?
  }

  lemma IdleStillMisses(m: Machine, s: Stimulus, t: nat)
    requires Misses(m, t) && Allowed(m, s.event) && m.phase == In(S1Idle) && s.event.Invoked? && !Brings(s.event, t)
    ensures Misses(Step(m, s.event, s.env), t)
  {
    StepKeepsGood(m, s.event, s.env);
    AcceptStillMisses(Load(m, s.event), s.env, t);
  }

  lemma AcceptStillMisses(l: Machine, env: Env, t: nat)
    requires t in l.a.expected && t !in l.a.received && !l.a.complete
    requires l.data.Some? && (l.data.value.Submitted? ==> IsOther(l.data.value.arg) && Number(l.data.value.arg) != t)
    ensures var l' := Accept(l, env).1;
            && t in l'.a.expected && t !in l'.a.received && !l'.a.complete && l'.log == l.log && l'.data == l.data
  {
  }

  lemma StillMisses(m: Machine, s: Stimulus, t: nat)
    requires Misses(m, t) && Allowed(m, s.event)
    requires m.phase == In(S1Idle) ==> s.event.Invoked? && !Brings(s.event, t)
    ensures Misses(Step(m, s.event, s.env), t)
  {
    if m.phase == In(S1Idle) {
      IdleStillMisses(m, s, t);
    } else {
      StepKeepsGood(m, s.event, s.env);
      WaitingStillMisses(m, s);
    }
  }

  lemma WaitingStillMisses(m: Machine, s: Stimulus)
    requires m.phase != In(S1Idle) && m.phase != In(S3SubmitVerifyResponseWait) && !m.a.complete && m.data.Some?
    ensures var m' := Step(m, s.event, s.env);
            && m'.a == m.a && m'.log == m.log && m'.phase != In(S3SubmitVerifyResponseWait) && m'.data.Some?
  {
  }

  /**
   A segment that arrives before the result for the one before it is confirmed is accepted and lost:
   as long as it is not sent again, and nothing but invocations arrives in the idle state, the
   submission stays incomplete and nothing is spooled.
   */
  lemma {:induction false} EarlySegmentStaysMissing(m: Machine, early: Stimulus, t: nat, es: seq<Stimulus>)
    requires Misses(m, t) && m.phase == In(S2SubmitResultResponseWait)
    requires Brings(early.event, t) && Allowed(m, early.event)
    requires Quiet(Step(m, early.event, early.env), es, t)
    ensures var m1 := Step(m, early.event, early.env);
            && m1.phase == In(S2SubmitResultResponseWait)
            && Misses(Run(m1, es), t) && !Run(m1, es).a.complete && Run(m1, es).log == []
  {
    StillMisses(m, early, t);
    var m1 := Step(m, early.event, early.env);
    MissesAfter(m1, es, t);
  }

  /** In the idle state nothing but invocations arrives, and none of them brings segment t. */
  ghost predicate Quiet(m: Machine, es: seq<Stimulus>, t: nat) {
    && AllowedRun(m, es)
    && forall i :: 0 <= i < |es| && Run(m, es[..i]).phase == In(S1Idle) ==> es[i].event.Invoked? && !Brings(es[i].event, t)
  }

  lemma QuietPrefix(m: Machine, es: seq<Stimulus>, t: nat)
    requires Quiet(m, es, t) && es != []
    ensures var n := |es| - 1;
            && Quiet(m, es[..n], t) && Allowed(Run(m, es[..n]), es[n].event)
            && (Run(m, es[..n]).phase == In(S1Idle) ==> es[n].event.Invoked? && !Brings(es[n].event, t))
  {
    var n := |es| - 1;
    assert forall i :: 0 <= i < n ==> es[..n][..i] == es[..i];
  }

  lemma {:induction false} MissesAfter(m: Machine, es: seq<Stimulus>, t: nat)
    requires Misses(m, t) && Quiet(m, es, t)
    ensures Misses(Run(m, es), t)
  {
    if es != [] {
      var n := |es| - 1;
      QuietPrefix(m, es, t);
      MissesAfter(m, es[..n], t);
      StillMisses(Run(m, es[..n]), es[n], t);
    }
  }

  /** The exception: any other event in the idle state is taken for one more arrival of the last segment. */
  lemma StrayEventTakesLastSegment(m: Machine, evt: nat, env: Env)
    requires m.phase == In(S1Idle) && m.value.Submission? && m.threeWay && env.known
    requires m.data.Some? && m.data.value.Submitted? && m.data.value.arg.segmentInfo.Some?
    requires var (ok, a) := Receive(m.a, m.data.value.arg, env.rule); ok && !a.complete
    ensures var m' := Step(m, Plain(evt), env);
            && m'.phase == In(S2SubmitResultResponseWait)
            && m'.a == Receive(m.a, m.data.value.arg, env.rule).1 && m'.got == Take(m.got, m.data.value.arg)
            && (IsFirst(m.data.value.arg) ==> m'.armed == m.armed + 1)
  {
  }

  // ---------- segmentation timers ----------

  /** A first segment of several is taken, or is taken again. */
  predicate TakesFirst(m: Machine, s: Stimulus) {
    var l := Load(m, s.event);
    && m.phase == In(S1Idle) && Restarts(l) && l.data.value.arg.segmentInfo.value.numSegments != 1
    && Accept(l, s.env).0
  }

  function FirstsTaken(es: seq<Stimulus>): nat {
    if es == [] then 0
    else
      var n := |es| - 1;
      FirstsTaken(es[..n]) + if TakesFirst(Run(FRESH_MACHINE, es[..n]), es[n]) then 1 else 0
  }

  /** The timers that run once so many first segments were taken: the last missing segment stops only one. */
  function Running(firsts: nat, complete: bool): nat {
    if complete && firsts > 0 then firsts - 1 else firsts
  }

  ghost predicate TimersOk(m: Machine, firsts: nat) {
    && m.armed == Running(firsts, m.a.complete)
    && (m.a.first.Some? <==> firsts > 0)
    && (m.a.first.Some? ==> IsFirst(m.a.first.value) && m.a.first.value.segmentInfo.value.numSegments >= 2)
    && (m.data.Some? && m.data.value.Submitted? && m.data.value.arg.segmentInfo.None? ==> m.a.first.None?)
    && (m.data.None? ==> m.a.first.None?)
  }

  lemma AcceptTimers(l: Machine, env: Env, firsts: nat)
    requires Collecting(l) && l.data.Some? && TimersOk(l, firsts)
    ensures var (ok, l') := Accept(l, env);
            var takes := Restarts(l) && l.data.value.arg.segmentInfo.value.numSegments != 1 && ok;
            TimersOk(l', firsts + if takes then 1 else 0)
  {
  }

  lemma StepTimers(m: Machine, s: Stimulus, firsts: nat)
    requires Good(m) && Allowed(m, s.event) && TimersOk(m, firsts)
    ensures TimersOk(Step(m, s.event, s.env), firsts + if TakesFirst(m, s) then 1 else 0)
  {
    LoadTimers(m, s.event, firsts);
    var l := Load(m, s.event);
    if m.phase == In(S1Idle) {
      assert Collecting(l);
      AcceptTimers(l, s.env, firsts);
      IdleTimers(m, s);
    } else {
      WaitingTimers(m, s);
    }
  }

  lemma LoadTimers(m: Machine, e: Event, firsts: nat)
    requires Allowed(m, e) && TimersOk(m, firsts)
    ensures TimersOk(Load(m, e), firsts)
  {
  }

  lemma IdleTimers(m: Machine, s: Stimulus)
    requires m.phase == In(S1Idle)
    ensures var m', l' := Step(m, s.event, s.env), Accept(Load(m, s.event), s.env).1;
            m'.a == l'.a && m'.armed == l'.armed && m'.data == l'.data
  {
  }

  lemma WaitingTimers(m: Machine, s: Stimulus)
    requires m.phase != In(S1Idle)
    ensures var m', l := Step(m, s.event, s.env), Load(m, s.event);
            m'.a == m.a && m'.armed == m.armed && m'.data in {m.data, l.data}
  {
  }

  /** In every run as many timers run as first segments were taken, less one once the message is complete. */
  lemma {:induction false} TimersRunning(es: seq<Stimulus>)
    requires AllowedRun(FRESH_MACHINE, es)
    ensures var m := Run(FRESH_MACHINE, es);
            TimersOk(m, FirstsTaken(es)) && m.armed == Running(FirstsTaken(es), m.a.complete)
  {
    if es != [] {
      var n := |es| - 1;
      PrefixAllowed(es, n);
      TimersRunning(es[..n]);
      RunGood(es[..n]);
      StepTimers(Run(FRESH_MACHINE, es[..n]), es[n], FirstsTaken(es[..n]));
    }
  }

  /** When nothing but invocations arrives in the idle state, a first segment is taken once at most. */
  lemma {:induction false} OneFirst(es: seq<Stimulus>)
    requires AllowedRun(FRESH_MACHINE, es)
    requires forall i :: 0 <= i < |es| && Run(FRESH_MACHINE, es[..i]).phase == In(S1Idle) ==> es[i].event.Invoked?
    ensures FirstsTaken(es) <= 1 && (es != [] ==> Run(FRESH_MACHINE, es).data.Some?)
  {
    if es != [] {
      var n := |es| - 1;
      PrefixAllowed(es, n);
      assert forall i :: 0 <= i < n ==> es[..n][..i] == es[..i];
      OneFirst(es[..n]);
      var m := Run(FRESH_MACHINE, es[..n]);
      if n == 0 {
        assert es[..0] == [];
      }
      KeepsData(m, es[n]);
    }
  }

  /** Later invocations do not bring a first segment. */
  lemma KeepsData(m: Machine, s: Stimulus)
    requires Allowed(m, s.event) && (m == FRESH_MACHINE || m.data.Some?)
    ensures Step(m, s.event, s.env).data.Some?
    ensures m.data.Some? && (m.phase == In(S1Idle) ==> s.event.Invoked?) ==> !TakesFirst(m, s)
  {
    if m.phase == In(S1Idle) {
      AcceptKeepsData(Load(m, s.event), s.env);
    }
  }

  lemma AcceptKeepsData(l: Machine, env: Env)
    ensures Accept(l, env).1.data == l.data
  {
  }

  // ---------- a submission in segments ----------

  /** Everything works. */
  function Well(rule: ShiftRule): Env { Env(true, true, true, true, true, rule) }

  function Segment(id: Uint32, parts: seq<Bytes>, i: nat, rule: ShiftRule): Stimulus
    requires i < |parts| <= MTSUA_MAX_SEGMENTS
  {
    Stimulus(Invoked(Invocation(Submission, true, Submitted(Piece(id, parts, i)))), Well(rule))
  }

  function Confirmed(rule: ShiftRule): Stimulus { Stimulus(Plain(RESULT_CON), Well(rule)) }

  /** The first segment, then the ones numbered by `order`, each sent when the result before it is confirmed. */
  function Session(id: Uint32, parts: seq<Bytes>, order: seq<nat>, rule: ShiftRule): seq<Stimulus>
    requires 2 <= |parts| <= MTSUA_MAX_SEGMENTS
    requires forall k :: 0 <= k < |order| ==> 1 <= order[k] < |parts|
  {
    if order == [] then [Segment(id, parts, 0, rule)]
    else
      var n := |order| - 1;
      Session(id, parts, order[..n], rule) + [Confirmed(rule), Segment(id, parts, order[n], rule)]
  }

  lemma RunTwo(m: Machine, es: seq<Stimulus>, s: Stimulus, t: Stimulus)
    ensures Run(m, es + [s, t]) == Step(Step(Run(m, es), s.event, s.env), t.event, t.env)
  {
    assert (es + [s, t])[..|es| + 1] == es + [s];
    assert (es + [s])[..|es|] == es;
  }

  /** The operation after the first piece and those numbered by `order`. */
  ghost predicate MidSession(m: Machine, id: Uint32, parts: seq<Bytes>, order: seq<nat>, rule: ShiftRule)
    requires 2 <= |parts| <= MTSUA_MAX_SEGMENTS
    requires forall k :: 0 <= k < |order| ==> 1 <= order[k] < |parts|
  {
    && m.phase == In(S2SubmitResultResponseWait) && m.log == []
    && Arrive(id, parts, order, rule) == Some(m.a)
    && (m.a.complete <==> |order| == |parts| - 1)
    && (m.a.complete ==> m.file == Some(Join(parts)))
    && m.armed == (if m.a.complete then 0 else 1)
    && m.value.Submission? && m.data.Some?
  }

  lemma {:induction false} SessionRuns(id: Uint32, parts: seq<Bytes>, order: seq<nat>, rule: ShiftRule)
    requires 2 <= |parts| <= MTSUA_MAX_SEGMENTS && (|parts| < Words.WIDTH || rule.ShiftsOut?)
    requires forall k :: 0 <= k < |order| ==> 1 <= order[k] < |parts|
    requires Distinct(order) && |order| <= |parts| - 1
    ensures MidSession(Run(FRESH_MACHINE, Session(id, parts, order, rule)), id, parts, order, rule)
  {
    ReassemblyIsComplete(id, parts, order, rule);
    if order == [] {
      FirstRuns(id, parts, rule);
    } else {
      var n := |order| - 1;
      var before := order[..n];
      assert order == before + [order[n]];
      SessionRuns(id, parts, before, rule);
      var m := Run(FRESH_MACHINE, Session(id, parts, before, rule));
      RunTwo(FRESH_MACHINE, Session(id, parts, before, rule), Confirmed(rule), Segment(id, parts, order[n], rule));
      ArriveStep(id, parts, before, order[n], rule);
      NextRuns(m, id, parts, before, order[n], rule);
    }
  }

  lemma FirstRuns(id: Uint32, parts: seq<Bytes>, rule: ShiftRule)
    requires 2 <= |parts| <= MTSUA_MAX_SEGMENTS && (|parts| < Words.WIDTH || rule.ShiftsOut?)
    ensures MidSession(Run(FRESH_MACHINE, Session(id, parts, [], rule)), id, parts, [], rule)
  {
    var s := Segment(id, parts, 0, rule);
    assert [s][..0] == [];
    assert Run(FRESH_MACHINE, [s]) == Step(FRESH_MACHINE, s.event, s.env);
    ReassemblyIsComplete(id, parts, [], rule);
  }

  lemma NextRuns(m: Machine, id: Uint32, parts: seq<Bytes>, before: seq<nat>, t: nat, rule: ShiftRule)
    requires 2 <= |parts| <= MTSUA_MAX_SEGMENTS && (|parts| < Words.WIDTH || rule.ShiftsOut?)
    requires forall k :: 0 <= k < |before| ==> 1 <= before[k] < |parts|
    requires 1 <= t < |parts| && Distinct(before + [t]) && |before| < |parts| - 1
    requires MidSession(m, id, parts, before, rule)
    ensures var s, p := Confirmed(rule), Segment(id, parts, t, rule);
            MidSession(Step(Step(m, s.event, s.env), p.event, p.env), id, parts, before + [t], rule)
  {
    NextArrives(m.a, id, parts, before, t, rule);
    var s := Confirmed(rule);
    var idle := Step(m, s.event, s.env);
    assert idle.phase == In(S1Idle) && idle.a == m.a && idle.log == [] && idle.armed == m.armed;
    PieceTaken(idle, Piece(id, parts, t), Arrive(id, parts, before + [t], rule).value, rule);
  }

  /** What the arrival of one more piece does to the assembly. */
  lemma {:induction false} NextArrives(a: Assembly, id: Uint32, parts: seq<Bytes>, before: seq<nat>, t: nat, rule: ShiftRule)
    requires 2 <= |parts| <= MTSUA_MAX_SEGMENTS && (|parts| < Words.WIDTH || rule.ShiftsOut?)
    requires forall k :: 0 <= k < |before| ==> 1 <= before[k] < |parts|
    requires 1 <= t < |parts| && Distinct(before + [t]) && |before| < |parts| - 1
    requires Arrive(id, parts, before, rule) == Some(a)
    ensures var r, arg := Arrive(id, parts, before + [t], rule), Piece(id, parts, t);
            && r.Some? && Receive(a, arg, rule) == (true, r.value)
            && (r.value.complete <==> |before| + 1 == |parts| - 1)
            && (r.value.complete ==> Whole(r.value, arg).contents == Join(parts) && Whole(r.value, arg).ipm)
  {
    ArriveStep(id, parts, before, t, rule);
    ReassemblyIsComplete(id, parts, before + [t], rule);
    ArriveReceives(id, parts, before + [t], rule);
    var a' := Arrive(id, parts, before + [t], rule).value;
    if a'.complete {
      SameWhole(a', id, parts, t);
    }
  }

  lemma PieceTaken(m: Machine, arg: SubmitArg, a: Assembly, rule: ShiftRule)
    requires m.phase == In(S1Idle) && arg.segmentInfo.Some? && Receive(m.a, arg, rule) == (true, a)
    requires a.complete ==> Whole(a, arg).ipm
    ensures var m' := Step(m, Invoked(Invocation(Submission, true, Submitted(arg))), Well(rule));
            && m'.phase == In(S2SubmitResultResponseWait) && m'.log == m.log && m'.a == a
            && (a.complete ==> m'.file == Some(Whole(a, arg).contents))
            && m'.armed == Armed(m.armed, arg, a.complete) && m'.value.Submission? && m'.data.Some?
  {
  }

  lemma SameWhole(a: Assembly, id: Uint32, parts: seq<Bytes>, t: nat)
    requires 2 <= |parts| <= MTSUA_MAX_SEGMENTS && 1 <= t < |parts| && a.complete
    requires exists order :: Reassembly.Collected(a, id, parts, order)
    ensures Whole(a, Piece(id, parts, t)).contents == Join(parts) && Whole(a, Piece(id, parts, t)).ipm
  {
    var order :| Reassembly.Collected(a, id, parts, order);
    CollectedContent(a, id, parts, order);
  }

  /**
   A submission in 2 to 31 segments (32 where the machine shifts the bit out), each sent once the one
   before it is confirmed, whatever the order of the later ones: nothing is spooled before the last
   missing segment is in, and then exactly the joined content is.
   */
  lemma SubmissionRoundTrip(id: Uint32, parts: seq<Bytes>, order: seq<nat>, rule: ShiftRule)
    requires 2 <= |parts| <= MTSUA_MAX_SEGMENTS && (|parts| < Words.WIDTH || rule.ShiftsOut?)
    requires forall k :: 0 <= k < |order| ==> 1 <= order[k] < |parts|
    requires Distinct(order) && |order| <= |parts| - 1
    ensures var m := Run(FRESH_MACHINE, Session(id, parts, order, rule) + [Confirmed(rule)]);
            if |order| < |parts| - 1 then m.phase == In(S1Idle) && m.log == []
            else m.phase.Freed? && m.log == [Spooled(Join(parts))]
  {
    SessionRuns(id, parts, order, rule);
    var es := Session(id, parts, order, rule);
    assert (es + [Confirmed(rule)])[..|es|] == es;
  }

  // ---------- a submission in one piece ----------

  function Submit(threeWay: bool, arg: SubmitArg, env: Env): Stimulus {
    Stimulus(Invoked(Invocation(Submission, threeWay, Submitted(arg))), env)
  }

  /** The message comes whole: without segment information, or as the first of one segment. */
  predicate ComesWhole(arg: SubmitArg) {
    arg.segmentInfo.None? || (arg.segmentInfo.value.First? && arg.segmentInfo.value.numSegments == 1)
  }

  /** What the mailer's side makes of a message handed to it. */
  function Handed(content: Bytes, env: Env): seq<Entry> {
    if !env.spools then [ReportedNonDelivery]
    else if env.starts then [Spooled(content)]
    else [Spooled(content), ReportedNonDelivery]
  }

  /** An operation that waits for its result to be confirmed, with all of a message. */
  ghost predicate HasAll(m: Machine, content: Bytes) {
    m.phase == In(S2SubmitResultResponseWait) && m.a.complete && m.log == [] && m.file == Some(content) && m.data.Some?
  }

  /** A message submitted whole is taken if and only if the device is known, the SAP is right and the content is a message that parses. */
  lemma {:induction false} WholeIsTaken(threeWay: bool, arg: SubmitArg, env: Env)
    requires ComesWhole(arg)
    ensures var es := [Submit(threeWay, arg, env)];
            var m := Run(FRESH_MACHINE, es);
            && AllowedRun(FRESH_MACHINE, es)
            && if env.known && threeWay && arg.ipm && env.parses then HasAll(m, arg.contents)
               else m.phase == In(S4ErrorResponseWait) && m.log == []
  {
    var es := [Submit(threeWay, arg, env)];
    assert es[..0] == [];
    assert Run(FRESH_MACHINE, es) == Step(FRESH_MACHINE, es[0].event, es[0].env);
  }

  lemma RunOne(m: Machine, es: seq<Stimulus>, s: Stimulus)
    ensures Run(m, es + [s]) == Step(Run(m, es), s.event, s.env)
  {
    assert (es + [s])[..|es|] == es;
  }

  lemma {:induction false} AllowedOne(m: Machine, es: seq<Stimulus>, s: Stimulus)
    requires AllowedRun(m, es) && Allowed(Run(m, es), s.event)
    ensures AllowedRun(m, es + [s])
  {
    forall i | 0 <= i < |es + [s]| ensures Allowed(Run(m, (es + [s])[..i]), (es + [s])[i].event) {
      assert (es + [s])[..i] == if i < |es| then es[..i] else es;
    }
  }

  /** With all of a message there, the confirmation of its result hands it to the mailer. */
  lemma {:induction false} ConfirmedIsHanded(es: seq<Stimulus>, content: Bytes, env: Env)
    requires AllowedRun(FRESH_MACHINE, es) && HasAll(Run(FRESH_MACHINE, es), content)
    ensures var fs := es + [Stimulus(Plain(RESULT_CON), env)];
            var m := Run(FRESH_MACHINE, fs);
            AllowedRun(FRESH_MACHINE, fs) && m.phase.Freed? && m.log == Handed(content, env)
  {
    RunOne(FRESH_MACHINE, es, Stimulus(Plain(RESULT_CON), env));
    AllowedOne(FRESH_MACHINE, es, Stimulus(Plain(RESULT_CON), env));
  }

  /** When the result fails instead, the device is asked: its answer to send the message hands it to the mailer, another answer removes it. */
  lemma {:induction false} VerifiedIsHanded(es: seq<Stimulus>, content: Bytes, asked: Env, send: bool, env: Env)
    requires AllowedRun(FRESH_MACHINE, es) && HasAll(Run(FRESH_MACHINE, es), content)
    requires asked.known && asked.verifies
    ensures var fs := es + [Stimulus(Plain(FAILURE_IND), asked)] + [Stimulus(Answered(send), env)];
            var m := Run(FRESH_MACHINE, fs);
            && AllowedRun(FRESH_MACHINE, fs) && m.phase.Freed?
            && m.log == if send then Handed(content, env) else [Removed]
  {
    var f, a := Stimulus(Plain(FAILURE_IND), asked), Stimulus(Answered(send), env);
    RunOne(FRESH_MACHINE, es, f);
    AllowedOne(FRESH_MACHINE, es, f);
    RunOne(FRESH_MACHINE, es + [f], a);
    AllowedOne(FRESH_MACHINE, es + [f], a);
  }

  /** The device is asked on the 2-way SAP, when it is known and the request can be made; otherwise nothing can answer it. */
  lemma {:induction false} AskedExactly(m: Machine, asked: Env, send: bool)
    requires m.phase == In(S2SubmitResultResponseWait) && m.a.complete && !m.value.SubmissionVerify?
    ensures var m' := Step(m, Plain(FAILURE_IND), asked);
            && m'.phase == In(S3SubmitVerifyResponseWait) && m'.log == m.log && m'.file == m.file
            && (m'.value.SubmissionVerify? <==> asked.known && asked.verifies)
            && (m'.value.SubmissionVerify? ==> !m'.threeWay)
            && (Allowed(m', Answered(send)) <==> m.data.Some? && asked.known && asked.verifies)
  {
  }

  /** When the request fails as well the message is removed. */
  lemma {:induction false} UnverifiedIsRemoved(es: seq<Stimulus>, content: Bytes, asked: Env, env: Env)
    requires AllowedRun(FRESH_MACHINE, es) && HasAll(Run(FRESH_MACHINE, es), content)
    ensures var fs := es + [Stimulus(Plain(FAILURE_IND), asked)] + [Stimulus(Plain(FAILURE_IND), env)];
            var m := Run(FRESH_MACHINE, fs);
            AllowedRun(FRESH_MACHINE, fs) && m.phase.Freed? && m.log == [Removed]
  {
    var f, g := Stimulus(Plain(FAILURE_IND), asked), Stimulus(Plain(FAILURE_IND), env);
    RunOne(FRESH_MACHINE, es, f);
    AllowedOne(FRESH_MACHINE, es, f);
    RunOne(FRESH_MACHINE, es + [f], g);
    AllowedOne(FRESH_MACHINE, es + [f], g);
  }

  /**
   A message submitted whole and confirmed: it is handed to the mailer, with its content, if and only if
   the device is known, the SAP is the 3-way one and the content is a message that parses.
   */
  lemma {:induction false} WholeSubmission(threeWay: bool, arg: SubmitArg, env: Env, confirmed: Env)
    requires ComesWhole(arg)
    ensures var es := [Submit(threeWay, arg, env)] + [Stimulus(Plain(RESULT_CON), confirmed)];
            var m := Run(FRESH_MACHINE, es);
            && AllowedRun(FRESH_MACHINE, es) && m.phase.Freed?
            && m.log == if env.known && threeWay && arg.ipm && env.parses then Handed(arg.contents, confirmed) else []
  {
    var es, s := [Submit(threeWay, arg, env)], Stimulus(Plain(RESULT_CON), confirmed);
    WholeIsTaken(threeWay, arg, env);
    if env.known && threeWay && arg.ipm && env.parses {
      ConfirmedIsHanded(es, arg.contents, confirmed);
    } else {
      RunOne(FRESH_MACHINE, es, s);
      AllowedOne(FRESH_MACHINE, es, s);
    }
  }

  /** The same when the result fails and the device is asked whether the message is to be sent. */
  lemma {:induction false} WholeSubmissionVerified(arg: SubmitArg, env: Env, asked: Env, send: bool, answered: Env)
    requires ComesWhole(arg) && arg.ipm && env.known && env.parses && asked.known && asked.verifies
    ensures var es := [Submit(true, arg, env)] + [Stimulus(Plain(FAILURE_IND), asked)] + [Stimulus(Answered(send), answered)];
            var m := Run(FRESH_MACHINE, es);
            && AllowedRun(FRESH_MACHINE, es) && m.phase.Freed?
            && m.log == if send then Handed(arg.contents, answered) else [Removed]
  {
    WholeIsTaken(true, arg, env);
    VerifiedIsHanded([Submit(true, arg, env)], arg.contents, asked, send, answered);
  }

  /** And for a submission in segments. */
  lemma {:induction false} SessionVerified(id: Uint32, parts: seq<Bytes>, order: seq<nat>, rule: ShiftRule, asked: Env, send: bool, answered: Env)
    requires 2 <= |parts| <= MTSUA_MAX_SEGMENTS && (|parts| < Words.WIDTH || rule.ShiftsOut?)
    requires forall k :: 0 <= k < |order| ==> 1 <= order[k] < |parts|
    requires Distinct(order) && |order| == |parts| - 1 && asked.known && asked.verifies
    ensures var es := Session(id, parts, order, rule) + [Stimulus(Plain(FAILURE_IND), asked)] + [Stimulus(Answered(send), answered)];
            var m := Run(FRESH_MACHINE, es);
            && AllowedRun(FRESH_MACHINE, es) && m.phase.Freed?
            && m.log == if send then Handed(Join(parts), answered) else [Removed]
  {
    SessionRuns(id, parts, order, rule);
    SessionAllowed(id, parts, order, rule);
    VerifiedIsHanded(Session(id, parts, order, rule), Join(parts), asked, send, answered);
  }

  lemma {:induction false} SessionAllowed(id: Uint32, parts: seq<Bytes>, order: seq<nat>, rule: ShiftRule)
    requires 2 <= |parts| <= MTSUA_MAX_SEGMENTS && (|parts| < Words.WIDTH || rule.ShiftsOut?)
    requires forall k :: 0 <= k < |order| ==> 1 <= order[k] < |parts|
    requires Distinct(order) && |order| <= |parts| - 1
    ensures AllowedRun(FRESH_MACHINE, Session(id, parts, order, rule))
  {
    if order == [] {
      assert [Segment(id, parts, 0, rule)][..0] == [];
    } else {
      var n := |order| - 1;
      var before := order[..n];
      assert order == before + [order[n]];
      SessionAllowed(id, parts, before, rule);
      SessionRuns(id, parts, before, rule);
      NextAllowed(Session(id, parts, before, rule), id, parts, before, order[n], rule);
    }
  }

  lemma NextAllowed(es: seq<Stimulus>, id: Uint32, parts: seq<Bytes>, before: seq<nat>, t: nat, rule: ShiftRule)
    requires 2 <= |parts| <= MTSUA_MAX_SEGMENTS && 1 <= t < |parts|
    requires forall k :: 0 <= k < |before| ==> 1 <= before[k] < |parts|
    requires AllowedRun(FRESH_MACHINE, es) && MidSession(Run(FRESH_MACHINE, es), id, parts, before, rule)
    ensures AllowedRun(FRESH_MACHINE, es + [Confirmed(rule), Segment(id, parts, t, rule)])
  {
    var c, p := Confirmed(rule), Segment(id, parts, t, rule);
    AllowedOne(FRESH_MACHINE, es, c);
    RunOne(FRESH_MACHINE, es, c);
    StepKeepsData(Run(FRESH_MACHINE, es), c.event, c.env);
    AllowedOne(FRESH_MACHINE, es + [c], p);
    assert es + [c, p] == es + [c] + [p];
  }

  /** A segment whose result fails is kept as one whose result is confirmed: the submission goes on. */
  lemma FailureGoesOn(m: Machine, env: Env, env': Env)
    requires m.phase == In(S2SubmitResultResponseWait) && !m.a.complete
    ensures Step(m, Plain(FAILURE_IND), env) == Step(m, Plain(RESULT_CON), env')
  {
  }

  /** A submission that announces no segments, or more than 32, is refused, and nothing is ever spooled. */
  lemma {:induction false} BadCountIsRefused(threeWay: bool, arg: SubmitArg, env: Env, es: seq<Stimulus>)
    requires arg.segmentInfo.Some? && arg.segmentInfo.value.First? && !(1 <= arg.segmentInfo.value.numSegments <= 32)
    ensures var m := Step(FRESH_MACHINE, Submit(threeWay, arg, env).event, env);
            && m.phase == In(S4ErrorResponseWait)
            && Run(m, es).log == [] && (es != [] ==> Run(m, es).phase.Freed?)
  {
    FirstAcceptedExactly(FRESH, arg, env.rule);
    AnswerEnds(Step(FRESH_MACHINE, Submit(threeWay, arg, env).event, env), es);
  }

  /** In the middle of a submission a segment is taken exactly when it is announced and missing; another one ends it, with nothing spooled. */
  lemma {:induction false} SegmentTakenExactly(id: Uint32, parts: seq<Bytes>, order: seq<nat>, rule: ShiftRule, arg: SubmitArg, es: seq<Stimulus>)
    requires 2 <= |parts| <= MTSUA_MAX_SEGMENTS && (|parts| < Words.WIDTH || rule.ShiftsOut?)
    requires forall k :: 0 <= k < |order| ==> 1 <= order[k] < |parts|
    requires Distinct(order) && |order| < |parts| - 1 && IsOther(arg)
    ensures var t := arg.segmentInfo.value.thisSegment;
            var m := Run(FRESH_MACHINE, Session(id, parts, order, rule) + [Confirmed(rule), Submit(true, arg, Well(rule))]);
            && (m.phase == In(S2SubmitResultResponseWait) <==> 1 <= t < |parts| && t !in order)
            && (m.phase != In(S2SubmitResultResponseWait) ==>
                  m.phase == In(S4ErrorResponseWait) && Run(m, es).log == [] && (es != [] ==> Run(m, es).phase.Freed?))
  {
    var p := Submit(true, arg, Well(rule));
    SessionRuns(id, parts, order, rule);
    RunTwo(FRESH_MACHINE, Session(id, parts, order, rule), Confirmed(rule), p);
    AcceptedExactly(id, parts, order, rule, arg);
    var m := Run(FRESH_MACHINE, Session(id, parts, order, rule) + [Confirmed(rule), p]);
    var idle := Step(Run(FRESH_MACHINE, Session(id, parts, order, rule)), Confirmed(rule).event, Well(rule));
    ArrivedIpm(id, parts, order, rule, arg);
    SegmentStep(idle, arg, rule);
    if m.phase != In(S2SubmitResultResponseWait) {
      AnswerEnds(m, es);
    }
  }

  /** What completes is a message of the type its first segment has. */
  lemma {:induction false} ArrivedIpm(id: Uint32, parts: seq<Bytes>, order: seq<nat>, rule: ShiftRule, arg: SubmitArg)
    requires 2 <= |parts| <= MTSUA_MAX_SEGMENTS && (|parts| < Words.WIDTH || rule.ShiftsOut?)
    requires forall k :: 0 <= k < |order| ==> 1 <= order[k] < |parts|
    requires Distinct(order) && IsOther(arg) && Arrive(id, parts, order, rule).Some?
    ensures var (ok, a) := Receive(Arrive(id, parts, order, rule).value, arg, rule);
            ok && a.complete ==> Whole(a, arg).ipm
  {
    ArriveReceives(id, parts, order, rule);
    CompletesAsFirst(Arrive(id, parts, order, rule).value, arg, rule);
  }

  lemma {:induction false} CompletesAsFirst(was: Assembly, arg: SubmitArg, rule: ShiftRule)
    requires Sound(was) && was.expected != {} && was.first.Some? && was.first.value.ipm && IsOther(arg)
    ensures var (ok, a) := Receive(was, arg, rule); ok && a.complete ==> Whole(a, arg).ipm
  {
    var (ok, a) := Receive(was, arg, rule);
    if ok && a.complete {
      OtherKeepsSound(was, arg, rule);
      AllThere(a);
    }
  }

  lemma {:induction false} AllThere(a: Assembly)
    requires Sound(a) && a.complete && a.expected != {}
    ensures forall i :: 0 <= i <= a.last ==> i in a.received
  {
    forall i | 0 <= i <= a.last ensures i in a.received {
      assert i in a.expected;
    }
  }

  lemma {:induction false} SegmentStep(idle: Machine, arg: SubmitArg, rule: ShiftRule)
    requires idle.phase == In(S1Idle) && idle.log == [] && IsOther(arg)
    requires var (ok, a) := Receive(idle.a, arg, rule); ok && a.complete ==> Whole(a, arg).ipm
    ensures var m := Step(idle, Submit(true, arg, Well(rule)).event, Well(rule));
            m.log == [] && m.phase == if Receive(idle.a, arg, rule).0 then In(S2SubmitResultResponseWait) else In(S4ErrorResponseWait)
  {
  }

  /** When a timer expires while the result is on its way the operation ends, and its message with it. */
  lemma ExpiryEnds(m: Machine, env: Env)
    requires m.phase == In(S2SubmitResultResponseWait)
    ensures Step(m, Plain(TIMER_EXPIRED), env) == m.(phase := Freed)
  {
  }

  /** An operation that is no submission is answered, by an error when only the server may ask it, and never does anything with a message. */
  lemma {:induction false} OthersNeverSpool(inv: Invocation, env: Env, es: seq<Stimulus>)
    requires !inv.value.Submission?
    ensures Step(FRESH_MACHINE, Invoked(inv), env).phase ==
            In(if inv.value.SubmissionVerify? then S4ErrorResponseWait else S5NotSubmitResultResponseWait)
    ensures Run(Step(FRESH_MACHINE, Invoked(inv), env), es).log == []
    ensures es != [] ==> Run(Step(FRESH_MACHINE, Invoked(inv), env), es).phase.Freed?
  {
    var m := Step(FRESH_MACHINE, Invoked(inv), env);
    assert m.phase == In(S4ErrorResponseWait) || m.phase == In(S5NotSubmitResultResponseWait);
    AnswerEnds(m, es);
  }

  /** While an error or another result is on its way, whatever happens next ends the operation. */
  lemma {:induction false} AnswerEnds(m: Machine, es: seq<Stimulus>)
    requires m.phase == In(S4ErrorResponseWait) || m.phase == In(S5NotSubmitResultResponseWait)
    ensures Run(m, es).log == m.log && (es != [] ==> Run(m, es).phase.Freed?)
  {
    if es != [] {
      AnswerEnds(m, es[..|es| - 1]);
    }
  }

  /**
   What one side cuts the other spools: a content cut as for a delivery and submitted piece by piece,
   the later ones in any order, is spooled whole.
   */
  lemma CutAndSubmitted(content: Bytes, id: Uint32, order: seq<nat>, rule: ShiftRule)
    requires Cutting.NeedsCutting(|content|) && !Cutting.TooManySegments(|content|)
    requires |content| <= 43400 || rule.ShiftsOut?
    requires |order| == |Cutting.Pieces(content)| - 1 && Distinct(order)
    requires forall k :: 0 <= k < |order| ==> 1 <= order[k] < |Cutting.Pieces(content)|
    ensures var parts := Cutting.Pieces(content);
            && 2 <= |parts| <= MTSUA_MAX_SEGMENTS
            && Run(FRESH_MACHINE, Session(id, parts, order, rule) + [Confirmed(rule)]).log == [Spooled(content)]
  {
    Cutting.CutIsExact(content);
    Cutting.SegmentCounts(|content|);
    SubmissionRoundTrip(id, Cutting.Pieces(content), order, rule);
  }

  // ---------- the code ----------

  datatype Predicate = PS1S2a | PS1S5a | PS1S5b | PS2S1a | PS2S1d | PS2S2a | PS3S1a
  datatype Action =
    | AS1S2a | AS1S4a | AS1S5a | AS1S5b | AS2S1a | AS2S1c | AS2S2a | AS2S3a | AS3S1a | AS3S1b | AS3S1c
    | AS4S1a | AS4S1b | AS5S1a | AS5S1b | AS5S1c | AUnexpectedEvent

  type Table = seq<Row<Predicate, Action, State>>

  const T1_IDLE: Table := [
    Row(INVOKE_IND, Some(PS1S2a), Some(AS1S2a), S2SubmitResultResponseWait),
    Row(INVOKE_IND, Some(PS1S5a), Some(AS1S5a), S5NotSubmitResultResponseWait),
    Row(INVOKE_IND, Some(PS1S5b), Some(AS1S5b), S5NotSubmitResultResponseWait),
    Row(INVOKE_IND, None, Some(AS1S4a), S4ErrorResponseWait),
    Row(FSM_EVT_DEFAULT, None, Some(AUnexpectedEvent), S1Idle)]

  const T2_SUBMIT_RESULT_RESPONSE_WAIT: Table := [
    Row(RESULT_CON, Some(PS2S1a), Some(AS2S1a), S1Idle),
    Row(RESULT_CON, None, None, S1Idle),
    Row(FAILURE_IND, Some(PS2S1d), None, S1Idle),
    Row(FAILURE_IND, None, Some(AS2S3a), S3SubmitVerifyResponseWait),
    Row(TIMER_EXPIRED, None, Some(AS2S1c), S1Idle),
    Row(INVOKE_IND, Some(PS2S2a), Some(AS2S2a), S2SubmitResultResponseWait),
    Row(FSM_EVT_DEFAULT, None, Some(AUnexpectedEvent), S1Idle)]

  const T3_SUBMIT_VERIFY_RESPONSE_WAIT: Table := [
    Row(RESULT_IND, Some(PS3S1a), Some(AS3S1a), S1Idle),
    Row(RESULT_IND, None, Some(AS3S1b), S1Idle),
    Row(FAILURE_IND, None, Some(AS3S1c), S1Idle),
    Row(FSM_EVT_DEFAULT, None, Some(AUnexpectedEvent), S1Idle)]

  const T4_ERROR_RESPONSE_WAIT: Table := [
    Row(ERROR_CON, None, Some(AS4S1a), S1Idle),
    Row(FAILURE_IND, None, Some(AS4S1b), S1Idle),
    Row(FSM_EVT_DEFAULT, None, Some(AUnexpectedEvent), S1Idle)]

  const T5_NOT_SUBMIT_RESULT_RESPONSE_WAIT: Table := [
    Row(RESULT_CON, None, Some(AS5S1a), S1Idle),
    Row(ERROR_CON, None, Some(AS5S1b), S1Idle),
    Row(FAILURE_IND, None, Some(AS5S1c), S1Idle),
    Row(FSM_EVT_DEFAULT, None, Some(AUnexpectedEvent), S1Idle)]

  function Rows(s: State): (t: Table)
    ensures t != []
  {
    match s
    case S1Idle => T1_IDLE
    case S2SubmitResultResponseWait => T2_SUBMIT_RESULT_RESPONSE_WAIT
    case S3SubmitVerifyResponseWait => T3_SUBMIT_VERIFY_RESPONSE_WAIT
    case S4ErrorResponseWait => T4_ERROR_RESPONSE_WAIT
    case S5NotSubmitResultResponseWait => T5_NOT_SUBMIT_RESULT_RESPONSE_WAIT
  }

  /** What a predicate says of a machine; PS1S2a changes the machine as well. */
  function Says(p: Predicate, l: Machine, env: Env): bool {
    match p
    case PS1S2a => Accept(l, env).0
    case PS1S5a => l.value.DeliveryVerify?
    case PS1S5b => l.value.DeliveryControl?
    case PS2S1a => l.a.complete
    case PS2S1d => !l.a.complete
    case PS2S2a => true
    case PS3S1a => l.data == Some(Verdict(true))
  }

  /** The row of a state's table that an event takes. */
  function RowFor(s: State, l: Machine, evt: nat, env: Env): (row: nat)
    ensures row < |Rows(s)|
  {
    match s
    case S1Idle =>
      if Accept(l, env).0 then 0 else if l.value.DeliveryVerify? then 1 else if l.value.DeliveryControl? then 2 else 3
    case S2SubmitResultResponseWait =>
      if evt == RESULT_CON then (if l.a.complete then 0 else 1)
      else if evt == FAILURE_IND then (if l.a.complete then 3 else 2)
      else if evt == TIMER_EXPIRED then 4
      else 5
    case S3SubmitVerifyResponseWait =>
      if evt == RESULT_IND then (if l.data == Some(Verdict(true)) then 0 else 1)
      else if evt == FAILURE_IND then 2
      else 3
    case S4ErrorResponseWait => if evt == ERROR_CON then 0 else if evt == FAILURE_IND then 1 else 2
    case S5NotSubmitResultResponseWait =>
      if evt == RESULT_CON then 0 else if evt == ERROR_CON then 1 else if evt == FAILURE_IND then 2 else 3
  }

  /** The machine once the predicates above the row have been tried. */
  function Tried(s: State, l: Machine, env: Env): Machine {
    if s.S1Idle? then Accept(l, env).1 else l
  }

  /** What the actions do; None is the row without one. */
  function Effect(act: Option<Action>, l: Machine, env: Env): Machine {
    match act
    case None => l
    case Some(a) =>
      match a
      case AS1S2a => l
      case AS1S4a => l
      case AS1S5a => l
      case AS1S5b => l
      case AS2S2a => l
      case AS2S1a => Spool(l, env)
      case AS3S1a => Spool(l, env)
      case AS2S3a => AskToVerify(l, env)
      case AS3S1b => Remove(l)
      case AS3S1c => Remove(l)
      case _ => l.(phase := Freed)
  }

  function Moved(l: Machine, next: State): Machine {
    if l.phase.Freed? then l else l.(phase := In(next))
  }

  /** The row an event takes. */
  function TakenRow(s: State, l: Machine, evt: nat, env: Env): Row<Predicate, Action, State> {
    Rows(s)[RowFor(s, l, evt, env)]
  }

  lemma IdleRow(l: Machine, evt: nat, env: Env)
    ensures var row := TakenRow(S1Idle, l, evt, env);
            && (Accept(l, env).0 ==> row.act == Some(AS1S2a) && row.next.S2SubmitResultResponseWait?)
            && (!Accept(l, env).0 && (l.value.DeliveryVerify? || l.value.DeliveryControl?) ==>
                  row.act in {Some(AS1S5a), Some(AS1S5b)} && row.next.S5NotSubmitResultResponseWait?)
            && (!Accept(l, env).0 && !l.value.DeliveryVerify? && !l.value.DeliveryControl? ==>
                  row.act == Some(AS1S4a) && row.next.S4ErrorResponseWait?)
  {
  }

  lemma IdleTable(m: Machine, e: Event, env: Env)
    requires m.phase == In(S1Idle)
    ensures var l := Load(m, e);
            var row := TakenRow(S1Idle, l, EvtId(e), env);
            Step(m, e, env) == Moved(Effect(row.act, Tried(S1Idle, l, env), env), row.next)
  {
    IdleRow(Load(m, e), EvtId(e), env);
    assert Accept(Load(m, e), env).1.value == Load(m, e).value;
  }

  lemma WaitTable(m: Machine, e: Event, env: Env)
    requires m.phase == In(S2SubmitResultResponseWait)
    ensures var l := Load(m, e);
            var row := TakenRow(m.phase.state, l, EvtId(e), env);
            Step(m, e, env) == Moved(Effect(row.act, l, env), row.next)
  {
  }

  lemma OtherTable(m: Machine, e: Event, env: Env)
    requires m.phase.In? && !m.phase.state.S1Idle? && !m.phase.state.S2SubmitResultResponseWait?
    ensures var l := Load(m, e);
            var row := TakenRow(m.phase.state, l, EvtId(e), env);
            Step(m, e, env) == Moved(Effect(row.act, l, env), row.next)
  {
  }

  /** Taking the row for an event is what Step says. */
  lemma {:induction false} TableIsStep(m: Machine, e: Event, env: Env)
    requires m.phase.In?
    ensures var s, l := m.phase.state, Load(m, e);
            var row := TakenRow(s, l, EvtId(e), env);
            Step(m, e, env) == Moved(Effect(row.act, Tried(s, l, env), env), row.next)
  {
    match m.phase.state
    case S1Idle => IdleTable(m, e, env);
    case S2SubmitResultResponseWait => WaitTable(m, e, env);
    case _ => OtherTable(m, e, env);
  }

  /**
   As INVOKE.ind is also the number of the default event, its rows catch every event: in the idle
   state anything else that happens is taken for one more arrival of the last invocation, while a
   result is awaited it is ignored, and the rows for unexpected events of these states are never taken.
   */
  lemma UnexpectedNeverTaken(s: State, l: Machine, evt: nat, env: Env)
    requires s.S1Idle? || s.S2SubmitResultResponseWait?
    ensures TakenRow(s, l, evt, env).act != Some(AUnexpectedEvent)
    ensures s.S1Idle? ==> RowFor(s, l, evt, env) == RowFor(s, l, INVOKE_IND, env)
  {
  }

  /** The fields of MTS_Operation that mperform.c works with, and its state machine. */
  class Operation {
    const segments: Segments
    var operationValue: OperationValue
    var threeWay: bool                  // hSapDesc is the 3-way performer SAP
    var hOperationData: Option<Data>
    var controlFile: Option<Bytes>      // the content behind pControlFileName
    var timers: nat                     // segmentation timers that run; hSegmentationTimer is the last one
    var curState: State
    var freed: bool
    var log: seq<Entry>
    ghost var got: seq<SubmitArg>

    constructor ()
      ensures Valid() && View() == FRESH_MACHINE && fresh(segments) && fresh(segments.hSegmentBuf)
    {
      segments := new Segments();
      operationValue, threeWay, hOperationData, controlFile, timers := Submission, false, None, None, 0;
      curState, freed, log, got := S1Idle, false, [], [];
    }

    ghost function View(): Machine
      reads this, segments, segments.hSegmentBuf
      requires segments.Shaped()
    {
      Machine(if freed then Freed else In(curState), operationValue, threeWay, hOperationData,
              segments.View(), controlFile, timers, log, got)
    }

    ghost predicate Valid()
      reads this, segments, segments.hSegmentBuf
    {
      segments.Shaped() && segments.SlotsMatch() && Good(View())
    }

    /** The segment masks and slots agree, and a first segment only ever comes before any other. */
    ghost predicate Ready()
      reads this, segments, segments.hSegmentBuf
    {
      segments.Valid() && segments.SlotsMatch() && (Restarts(View()) ==> View().a.received.Keys <= {0})
    }

    /** What mts_preprocessInvokeIndication and mts_preprocessResultIndication leave in the operation. */
    method Preprocess(e: Event)
      requires segments.Shaped() && segments.SlotsMatch()
      modifies this`operationValue, this`threeWay, this`hOperationData
      ensures segments.Shaped() && segments.SlotsMatch() && View() == Load(old(View()), e)
    {
      match e
      case Invoked(inv) => operationValue, threeWay, hOperationData := inv.value, inv.threeWay, Some(inv.data);
      case Answered(send) => hOperationData := Some(Verdict(send));
      case Plain(_) =>
    }

    /** pS1S2a. */
    method AcceptSubmit(env: Env) returns (ok: bool)
      requires Ready() && !freed
      modifies this`controlFile, this`got, this`timers, segments, segments.hSegmentBuf
      ensures segments.Shaped() && segments.SlotsMatch() && (ok, View()) == Accept(old(View()), env)
    {
      if !env.known {
        return false;
      }
      if !operationValue.Submission? || !threeWay {
        return false;
      }
      if hOperationData.None? || !hOperationData.value.Submitted? {
        return false;
      }
      assert View().a.received.Keys == Words.Members(segments.receivedSegmentMask);
      ok := CollectSubmit(hOperationData.value.arg, env);
    }

    /** TMR_start after a first segment of several, TMR_stop after the last missing one. */
    method SetTimer(arg: SubmitArg)
      modifies this`timers
      ensures timers == Armed(old(timers), arg, segments.bComplete)
    {
      if arg.segmentInfo.Some? {
        match arg.segmentInfo.value
        case First(_, numSegments) =>
          if numSegments != 1 {
            timers := timers + 1;
          }
        case Other(_, _) =>
          if segments.bComplete && timers > 0 {
            timers := timers - 1;
          }
      }
    }

    method CollectSubmit(arg: SubmitArg, env: Env) returns (ok: bool)
      requires segments.Valid() && segments.SlotsMatch() && !freed
      requires IsFirst(arg) ==> Words.Members(segments.receivedSegmentMask) <= {0}
      modifies this`controlFile, this`got, this`timers, segments, segments.hSegmentBuf
      ensures segments.Shaped() && segments.SlotsMatch() && (ok, View()) == Collect(old(View()), arg, env)
    {
      var whole;
      ok, whole := TakeIn(arg, env.rule);
      if !ok {
        return;
      }
      ok := Parse(arg, whole, env.parses);
    }

    /** The segment part, or the message as it is. */
    method TakeIn(arg: SubmitArg, rule: ShiftRule) returns (ok: bool, whole: SubmitArg)
      requires segments.Valid() && segments.SlotsMatch()
      requires IsFirst(arg) ==> Words.Members(segments.receivedSegmentMask) <= {0}
      modifies segments, segments.hSegmentBuf
      ensures segments.Shaped() && segments.SlotsMatch()
      ensures (ok, segments.View()) == Taken(old(segments.View()), arg, rule)
      ensures ok && segments.bComplete ==> whole == Whole(segments.View(), arg)
    {
      whole := arg;
      ok := true;
      if arg.segmentInfo.Some? {
        ok, whole := segments.HandleSegment(arg, rule);
      } else {
        segments.SetComplete();
      }
    }

    /** What follows once the message or segment is taken: parse the content if it is complete. */
    method Parse(arg: SubmitArg, whole: SubmitArg, parses: bool) returns (ok: bool)
      requires segments.Shaped()
      modifies this`controlFile, this`got, this`timers
      ensures got == Take(old(got), arg) && timers == Armed(old(timers), arg, segments.bComplete)
      ensures ok <==> segments.bComplete ==> whole.ipm && parses
      ensures controlFile == if ok && segments.bComplete then Some(whole.contents) else old(controlFile)
    {
      got := Take(got, arg);
      SetTimer(arg);
      ok := true;
      if segments.bComplete {
        if !whole.ipm || !parses {
          return false;
        }
        controlFile := Some(whole.contents);
      }
    }

    /** The predicates. Only PS1S2a changes the operation, and so it must be able to collect a segment. */
    method Evaluate(p: Predicate, env: Env) returns (holds: bool)
      requires segments.Shaped() && segments.SlotsMatch() && !freed && (p.PS1S2a? ==> Ready())
      modifies this`controlFile, this`got, this`timers, segments, segments.hSegmentBuf
      ensures segments.Shaped() && segments.SlotsMatch() && holds == Says(p, old(View()), env)
      ensures View() == if p.PS1S2a? then Accept(old(View()), env).1 else old(View())
    {
      match p
      case PS1S2a => holds := AcceptSubmit(env);
      case PS1S5a => holds := operationValue.DeliveryVerify?;
      case PS1S5b => holds := operationValue.DeliveryControl?;
      case PS2S1a => holds := segments.bComplete;
      case PS2S1d => holds := !segments.bComplete;
      case PS2S2a => holds := true;
      case PS3S1a =>
        holds := hOperationData.Some? && hOperationData.value.Verdict? && hOperationData.value.sendMessage;
    }

    /** The engine's loop over the rows of the current state. */
    method Choose(evt: nat, env: Env) returns (taken: Row<Predicate, Action, State>)
      requires segments.Shaped() && segments.SlotsMatch() && !freed && (curState.S1Idle? ==> Ready())
      modifies this`controlFile, this`got, this`timers, segments, segments.hSegmentBuf
      ensures segments.Shaped() && segments.SlotsMatch() && taken == TakenRow(curState, old(View()), evt, env)
      ensures View() == Tried(curState, old(View()), env)
    {
      var rows := Rows(curState);
      ghost var l := View();
      var found := false;
      var row: nat := 0;
      while !found
        invariant segments.Shaped() && segments.SlotsMatch() && row <= RowFor(curState, l, evt, env) && (found ==> row == RowFor(curState, l, evt, env))
        invariant View() == if row > 0 || found then Tried(curState, l, env) else l
        decreases |rows| - row, !found
      {
        if EvtsMatch(rows[row].evtId, evt) {
          if rows[row].pred.None? {
            found := true;
          } else {
            found := Evaluate(rows[row].pred.value, env);
          }
        }
        if !found {
          row := row + 1;
        }
      }
      taken := rows[row];
    }

    /** aS2S1a and aS3S1a: spool the message and start the mailer. */
    method SpoolMessage(env: Env)
      requires segments.Shaped() && !freed
      modifies this`log, this`freed
      ensures segments.Shaped() && View() == Spool(old(View()), env)
    {
      if controlFile.None? || !env.spools {
        log := log + [ReportedNonDelivery];
      } else if !env.starts {
        log := log + [Spooled(controlFile.value), ReportedNonDelivery];
      } else {
        log := log + [Spooled(controlFile.value)];
      }
      freed := true;
    }

    /** aS2S3a: ask the device whether the message was sent. */
    method AskVerify(env: Env)
      requires segments.Shaped() && !freed
      modifies this`operationValue, this`threeWay, this`curState
      ensures segments.Shaped() && View() == AskToVerify(old(View()), env)
    {
      curState := S3SubmitVerifyResponseWait;
      if env.known && env.verifies {
        operationValue := SubmissionVerify;
        threeWay := false;
      }
    }

    /** aS3S1b and aS3S1c: remove the files of the message. */
    method RemoveFiles()
      requires segments.Shaped() && !freed
      modifies this`log, this`freed
      ensures segments.Shaped() && View() == Remove(old(View()))
    {
      log := log + [Removed];
      freed := true;
    }

    /** mts_freeOperation, and nothing else. */
    method Free()
      requires segments.Shaped() && !freed
      modifies this`freed
      ensures segments.Shaped() && View() == old(View()).(phase := Freed)
    {
      freed := true;
    }

    /** The actions, by name. */
    method Perform(act: Option<Action>, env: Env)
      requires segments.Shaped() && !freed
      modifies this`log, this`freed, this`operationValue, this`threeWay, this`curState
      ensures segments.Shaped() && View() == Effect(act, old(View()), env)
    {
      if act.None? {
        return;
      }
      match act.value
      case AS1S2a =>
      case AS1S4a =>
      case AS1S5a =>
      case AS1S5b =>
      case AS2S2a =>
      case AS2S1a => SpoolMessage(env);
      case AS3S1a => SpoolMessage(env);
      case AS2S3a => AskVerify(env);
      case AS3S1b => RemoveFiles();
      case AS3S1c => RemoveFiles();
      case _ => Free();
    }

    /** Enter the row's state; the machine is still there when the operation was freed. */
    method MoveTo(next: State)
      requires segments.Shaped()
      modifies this`curState
      ensures segments.Shaped() && View() == Moved(old(View()), next)
    {
      curState := next;
    }

    /** FSM_runMachine on an event and its data: the tables do what Step says. */
    method RunMachine(e: Event, env: Env)
      requires Valid() && !freed && Allowed(View(), e)
      modifies this, segments, segments.hSegmentBuf
      ensures Valid() && View() == Step(old(View()), e, env)
    {
      StepKeepsGood(View(), e, env);
      Dispatch(e, env);
    }

    method Dispatch(e: Event, env: Env)
      requires segments.Shaped() && segments.SlotsMatch() && !freed
      requires curState.S1Idle? ==> Collecting(Load(View(), e))
      modifies this, segments, segments.hSegmentBuf
      ensures segments.Shaped() && segments.SlotsMatch() && View() == Step(old(View()), e, env)
    {
      TableIsStep(View(), e, env);
      Preprocess(e);
      var row := Choose(EvtId(e), env);
      Perform(row.act, env);
      MoveTo(row.next);
    }
  }
}
