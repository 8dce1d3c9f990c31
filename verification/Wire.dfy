/**
 What a delivery puts on the wire (deliver.c), said of the log of its run alone: what every pdu
 carries, and what a device makes of the pdus whose results came back.
 */
module Wire {
  import opened Common
  import opened Fsm
  import opened Reassembly
  import opened Cutting
  import opened Deliver
  import Words

  // ---------- every pdu ----------

  /** The k-th octets of a content, as many as a segment holds. */
  function Slice(content: Bytes, k: nat): Bytes
    requires SEGMENT_LENGTH * k <= |content|
  {
    content[SEGMENT_LENGTH * k..if SEGMENT_LENGTH * (k + 1) < |content| then SEGMENT_LENGTH * (k + 1) else |content|]
  }

  /**
   The pdu handed over after k results: the k-th segment of a content that is cut, under the number
   its sequence was given, the first one announcing how many there are; otherwise the content itself,
   or the empty segment that can follow it.
   */
  predicate Carries(pdu: Pdu, content: Bytes, id: Uint32, k: nat) {
    if NeedsCutting(|content|) then
      && SEGMENT_LENGTH * k < |content|
      && pdu.contents == Slice(content, k)
      && pdu.info == Some(if k == 0 then First(id, (|content| + SEGMENT_LENGTH - 1) / SEGMENT_LENGTH) else Other(id, k))
    else if k == 0 then pdu == Pdu(None, content)
    else k == 1 && pdu == Pdu(Some(Other(0, 1)), [])
  }

  /** Every pdu of a log carries what belongs after the results before it. */
  ghost predicate AllCarry(content: Bytes, id: Uint32, log: seq<Entry>) {
    log == [] ||
    var n := |log| - 1;
    && AllCarry(content, id, log[..n])
    && (log[n].Invoke? ==> Carries(log[n].pdu, content, id, Results(log[..n])))
  }

  lemma {:induction false} EachCarries(content: Bytes, id: Uint32, log: seq<Entry>, p: nat)
    requires AllCarry(content, id, log) && p < |log| && log[p].Invoke?
    ensures Carries(log[p].pdu, content, id, Results(log[..p]))
  {
    var n := |log| - 1;
    if p < n {
      EachCarries(content, id, log[..n], p);
      assert log[..n][..p] == log[..p];
    }
  }

  lemma {:induction false} CountIs(len: nat, k: nat)
    ensures NumSegments(len) == (len + SEGMENT_LENGTH - 1) / SEGMENT_LENGTH
    ensures k < NumSegments(len) <==> SEGMENT_LENGTH * k < len
  {
  }

  lemma {:induction false} PieceIsSlice(content: Bytes, k: nat)
    requires SEGMENT_LENGTH * k < |content|
    ensures PieceOf(content, k) == Slice(content, k)
  {
  }

  lemma {:induction false} PlanIsPieces(content: Bytes, k: nat)
    requires NeedsCutting(|content|) && k < NumSegments(|content|)
    ensures |PlanFor(content).parts| == NumSegments(|content|) < 0x1_0000_0000
    ensures PlanFor(content).cut && PlanFor(content).parts[k] == PieceOf(content, k)
  {
    SegmentCounts(|content|);
  }

  lemma {:induction false} PduIs(plan: Plan, id: Uint32, k: nat)
    requires plan.cut && k < |plan.parts| < 0x1_0000_0000
    ensures PduOf(plan, id, k) == Pdu(Some(if k == 0 then First(id, |plan.parts|) else Other(id, k)), plan.parts[k])
  {
  }

  lemma {:induction false} CutPduCarries(content: Bytes, id: Uint32, k: nat)
    requires NeedsCutting(|content|) && k < NumSegments(|content|)
    ensures Carries(PduOf(PlanFor(content), id, k), content, id, k)
  {
    CountIs(|content|, k);
    PieceIsSlice(content, k);
    PlanIsPieces(content, k);
    PduIs(PlanFor(content), id, k);
  }

  lemma {:induction false} WholePduCarries(content: Bytes, id: Uint32, k: nat)
    requires !NeedsCutting(|content|) && k < 2
    ensures Carries(PduOf(PlanFor(content), 0, k), content, id, k)
  {
    assert PlanFor(content) == Plan(false, [content]);
  }

  lemma {:induction false} OneMoreCarries(content: Bytes, id: Uint32, log: seq<Entry>, e: Entry)
    requires AllCarry(content, id, log)
    requires e.Invoke? ==> Carries(e.pdu, content, id, Results(log))
    ensures AllCarry(content, id, log + [e])
  {
    assert (log + [e])[..|log|] == log;
  }

  /** The number under which the pdus of a delivery go out. */
  ghost predicate Numbered(m: Machine, content: Bytes, id: Uint32) {
    && m.plan == PlanFor(content) && !m.phase.Ready?
    && m.sequenceId == (if NeedsCutting(|content|) then id else 0)
    && (TooMany(m.plan) ==> m.log == [])
    && AllCarry(content, id, m.log)
  }

  lemma {:induction false} HandOverCarries(m: Machine, content: Bytes, id: Uint32, k: nat, ok: bool)
    requires m.plan == PlanFor(content) && AllCarry(content, id, m.log) && Results(m.log) == k
    requires m.sequenceId == (if NeedsCutting(|content|) then id else 0)
    requires k < if NeedsCutting(|content|) then NumSegments(|content|) else 2
    ensures AllCarry(content, id, HandOver(m, k, ok).log)
  {
    if NeedsCutting(|content|) {
      CutPduCarries(content, id, k);
    } else {
      WholePduCarries(content, id, k);
    }
    OneMoreCarries(content, id, m.log, Invoke(PduOf(m.plan, m.sequenceId, k), ok));
  }

  lemma {:induction false} BeginNumbered(content: Bytes, ok: bool, id: Uint32)
    ensures Numbered(Begin(Fresh(PlanFor(content)), ok, id), content, id)
  {
    var m := Fresh(PlanFor(content));
    PlanIsExact(content);
    HandOverCarries(m.(phase := Waiting, sequenceId := if NeedsCutting(|content|) then id else 0), content, id, 0, ok);
  }

  lemma {:induction false} NextNumbered(m: Machine, content: Bytes, id: Uint32, ok: bool)
    requires m.phase.Waiting? && Numbered(m, content, id) && !TooMany(m.plan) && Results(m.log) == m.piece + 1
    requires m.piece + 1 < if NeedsCutting(|content|) then NumSegments(|content|) else 2
    ensures Numbered(HandOver(m, m.piece + 1, ok), content, id)
  {
    HandOverCarries(m, content, id, m.piece + 1, ok);
  }

  /** A result finds a segment under way, and, unless it was the last, leaves one to go out. */
  lemma {:induction false} AnswerFinds(m: Machine)
    requires Deliver.Sound(m) && m.phase.Waiting? && m.sent
    ensures !TooMany(m.plan) && Results(m.log + [Result]) == m.piece + 1
    ensures !m.complete ==> m.piece + 1 < if m.plan.cut then |m.plan.parts| else 2
  {
    AnswerLogged(m);
  }

  lemma {:induction false} ResultNumbered(m: Machine, content: Bytes, id: Uint32, ok: bool)
    requires Deliver.Sound(m) && m.phase.Waiting? && m.sent && Numbered(m, content, id)
    ensures Numbered(Step(m, RESULT_IND, ok, id), content, id)
  {
    AnswerFinds(m);
    AnsweredNumbered(m, content, id, ok);
  }

  lemma {:induction false} SameNumbered(m: Machine, m': Machine, content: Bytes, id: Uint32)
    requires Numbered(m, content, id)
    requires m'.plan == m.plan && m'.sequenceId == m.sequenceId && m'.log == m.log && !m'.phase.Ready?
    ensures Numbered(m', content, id)
  {
  }

  lemma {:induction false} AnsweredNumbered(m: Machine, content: Bytes, id: Uint32, ok: bool)
    requires m.phase.Waiting? && Numbered(m, content, id) && !TooMany(m.plan) && Results(m.log + [Result]) == m.piece + 1
    requires !m.complete ==> m.piece + 1 < if m.plan.cut then |m.plan.parts| else 2
    ensures Numbered(Step(m, RESULT_IND, ok, id), content, id)
  {
    var answered := m.(log := m.log + [Result]);
    var m' := Step(m, RESULT_IND, ok, id);
    OneMoreCarries(content, id, m.log, Result);
    assert Numbered(answered, content, id);
    if m.complete {
      SameNumbered(answered, m', content, id);
    } else {
      NextNumbered(answered, content, id, ok);
      SameNumbered(HandOver(answered, m.piece + 1, ok), m', content, id);
    }
  }

  lemma {:induction false} FailureNumbered(m: Machine, content: Bytes, id: Uint32, ok: bool)
    requires Deliver.Sound(m) && m.phase.Waiting? && Numbered(m, content, id)
    ensures Numbered(Step(m, FAILURE_IND, ok, id), content, id)
  {
    PlanIsExact(content);
    if m.retries + 1 < MTS_MAX_FAILURE_RETRIES && !TooMany(m.plan) {
      HandOverCarries(m.(retries := m.retries + 1), content, id, m.piece, ok);
    }
  }

  lemma {:induction false} StepNumbered(m: Machine, content: Bytes, id: Uint32, e: Event)
    requires Deliver.Sound(m) && Numbered(m, content, id) && Allowed(m, e.evt)
    ensures Numbered(Step(m, e.evt, e.ok, e.id), content, id)
  {
    if m.phase.Waiting? && e.evt == RESULT_IND {
      ResultNumbered(m, content, id, e.ok);
      assert Step(m, RESULT_IND, e.ok, id) == Step(m, RESULT_IND, e.ok, e.id);
    } else if m.phase.Waiting? && e.evt == FAILURE_IND {
      FailureNumbered(m, content, id, e.ok);
      assert Step(m, FAILURE_IND, e.ok, id) == Step(m, FAILURE_IND, e.ok, e.id);
    }
  }

  lemma {:induction false} RunNumbered(content: Bytes, es: seq<Event>)
    requires DeliveryRun(PlanFor(content), es)
    ensures Numbered(Run(Fresh(PlanFor(content)), es), content, es[0].id)
  {
    var plan, n := PlanFor(content), |es| - 1;
    if n == 0 {
      assert es[..0] == [];
      BeginNumbered(content, es[0].ok, es[0].id);
    } else {
      PrefixIsRun(plan, es, n);
      RunSound(plan, es[..n]);
      RunNumbered(content, es[..n]);
      assert Allowed(Run(Fresh(plan), es[..n]), es[n].evt);
      StepNumbered(Run(Fresh(plan), es[..n]), content, es[0].id, es[n]);
    }
  }

  /** In every run, every pdu handed over carries the segment whose number is how many results came before it. */
  lemma {:induction false} EveryPdu(content: Bytes, es: seq<Event>, p: nat)
    requires DeliveryRun(PlanFor(content), es)
    requires p < |Run(Fresh(PlanFor(content)), es).log| && Run(Fresh(PlanFor(content)), es).log[p].Invoke?
    ensures var log := Run(Fresh(PlanFor(content)), es).log;
            Carries(log[p].pdu, content, es[0].id, Results(log[..p]))
  {
    RunNumbered(content, es);
    EachCarries(content, es[0].id, Run(Fresh(PlanFor(content)), es).log, p);
  }

  // ---------- what the device makes of it ----------

  /** The pdus a result followed at once, in order. */
  function Answered(log: seq<Entry>): seq<Pdu> {
    if |log| < 2 then []
    else
      var n := |log| - 1;
      Answered(log[..n]) + if log[n].Result? && log[n - 1].Invoke? then [log[n - 1].pdu] else []
  }

  /** A pdu as the device takes it. */
  function Argument(pdu: Pdu): SubmitArg {
    SubmitArg(pdu.info, true, pdu.contents)
  }

  /** The assembly of a device that starts afresh and takes the pdus in order; None once it has rejected one. */
  function Feed(pdus: seq<Pdu>, rule: ShiftRule): Option<Assembly> {
    if pdus == [] then Some(FRESH)
    else
      var last := pdus[|pdus| - 1];
      match Feed(pdus[..|pdus| - 1], rule)
      case None => None
      case Some(a) =>
        if last.info.Some? && Receive(a, Argument(last), rule).0 then Some(Receive(a, Argument(last), rule).1) else None
  }

  /** The pdus are those of the first segments in order. */
  ghost predicate Segments(pdus: seq<Pdu>, content: Bytes, id: Uint32) {
    forall k :: 0 <= k < |pdus| ==> Carries(pdus[k], content, id, k)
  }

  lemma {:induction false} OneMoreSegment(pdus: seq<Pdu>, content: Bytes, id: Uint32, pdu: Pdu)
    requires Segments(pdus, content, id) && Carries(pdu, content, id, |pdus|)
    ensures Segments(pdus + [pdu], content, id)
  {
  }

  lemma {:induction false} LastCarries(plan: Plan, id: Uint32, content: Bytes, num: Uint32, log: seq<Entry>)
    requires AllCarry(content, id, log) && Outstanding(log)
    ensures Carries(log[|log| - 1].pdu, content, id, Results(log))
  {
  }

  /** The pdus answered are those of the segments in order, one for each result. */
  lemma {:induction false} AnsweredInOrder(plan: Plan, id: Uint32, content: Bytes, num: Uint32, log: seq<Entry>)
    requires InOrder(plan, num, log) && AllCarry(content, id, log)
    ensures |Answered(log)| == Results(log) && Segments(Answered(log), content, id)
  {
    if log != [] {
      var n := |log| - 1;
      var before := log[..n];
      AnsweredInOrder(plan, id, content, num, before);
      if log[n].Result? {
        LastCarries(plan, id, content, num, before);
        assert before[n - 1] == log[n - 1];
        OneMoreSegment(Answered(before), content, id, before[n - 1].pdu);
      }
    }
  }

  /** The later segments in order. */
  function Later(n: nat): (order: seq<nat>)
    ensures |order| == n
    ensures forall k :: 0 <= k < n ==> order[k] == k + 1
  {
    seq(n, k requires k >= 0 => k + 1)
  }

  lemma {:induction false} SegmentIsPiece(pdu: Pdu, content: Bytes, id: Uint32, k: nat)
    requires NeedsCutting(|content|) && !TooManySegments(|content|) && Carries(pdu, content, id, k)
    ensures k < |Pieces(content)| && Argument(pdu) == Piece(id, Pieces(content), k)
  {
    CountIs(|content|, k);
    PieceIsSlice(content, k);
  }

  /** The pdus are the first pieces in order. */
  ghost predicate AsPieces(pdus: seq<Pdu>, id: Uint32, parts: seq<Bytes>) {
    |pdus| <= |parts| <= MTSUA_MAX_SEGMENTS && forall k :: 0 <= k < |pdus| ==> Argument(pdus[k]) == Piece(id, parts, k)
  }

  lemma {:induction false} SegmentsArePieces(content: Bytes, id: Uint32, pdus: seq<Pdu>)
    requires NeedsCutting(|content|) && !TooManySegments(|content|)
    requires |pdus| <= |Pieces(content)| && Segments(pdus, content, id)
    ensures 2 <= |Pieces(content)| <= MTSUA_MAX_SEGMENTS && AsPieces(pdus, id, Pieces(content))
    ensures |content| <= 43400 <==> |Pieces(content)| < MTSUA_MAX_SEGMENTS
  {
    CutIsExact(content);
    SegmentCounts(|content|);
    forall k | 0 <= k < |pdus| ensures Argument(pdus[k]) == Piece(id, Pieces(content), k) {
      SegmentIsPiece(pdus[k], content, id, k);
    }
  }

  /** Feeding the pieces in order is their arrival in order. */
  lemma {:induction false} FeedIsArrive(id: Uint32, parts: seq<Bytes>, pdus: seq<Pdu>, rule: ShiftRule)
    requires 2 <= |parts| <= MTSUA_MAX_SEGMENTS && pdus != [] && AsPieces(pdus, id, parts)
    ensures Feed(pdus, rule) == Arrive(id, parts, Later(|pdus| - 1), rule)
  {
    var n := |pdus| - 1;
    assert Argument(pdus[n]) == Piece(id, parts, n);
    if n == 0 {
      assert pdus[..0] == [] && Later(0) == [];
      assert Feed(pdus[..0], rule) == Some(FRESH);
    } else {
      FeedIsArrive(id, parts, pdus[..n], rule);
      assert Later(n) == Later(n - 1) + [n];
      ArriveStep(id, parts, Later(n - 1), n, rule);
    }
  }

  /** What is parsed at the end does not depend on which later segment came last. */
  lemma {:induction false} SameContents(a: Assembly, arg: SubmitArg, arg': SubmitArg)
    requires arg.segmentInfo.Some? && arg.segmentInfo.value.Other? && arg'.segmentInfo.Some? && arg'.segmentInfo.value.Other?
    requires a.first.Some? && forall i :: 0 <= i <= a.last ==> i in a.received
    ensures Whole(a, arg) == Whole(a, arg')
  {
  }

  lemma {:induction false} FedIsWhole(a: Assembly, id: Uint32, parts: seq<Bytes>, n: nat, rule: ShiftRule)
    requires 2 <= |parts| <= MTSUA_MAX_SEGMENTS && (|parts| < Words.WIDTH || rule.ShiftsOut?) && n == |parts| - 1
    requires Arrive(id, parts, Later(n), rule) == Some(a) && a.complete
    ensures Whole(a, Piece(id, parts, n)).contents == Join(parts)
  {
    ArriveReceives(id, parts, Later(n), rule);
    ReassemblyIsComplete(id, parts, Later(n), rule);
    CollectedContent(a, id, parts, Later(n));
    forall i | 0 <= i <= a.last ensures i in a.received {
      assert i in Words.Below(|parts|);
    }
    SameContents(a, Piece(id, parts, n), Piece(id, parts, 1));
  }

  /** How far a device is with the pieces in order. */
  lemma {:induction false} FedInOrder(id: Uint32, parts: seq<Bytes>, pdus: seq<Pdu>, rule: ShiftRule)
    requires 2 <= |parts| <= MTSUA_MAX_SEGMENTS && (|parts| < Words.WIDTH || rule.ShiftsOut?)
    requires pdus != [] && AsPieces(pdus, id, parts)
    ensures var r := Feed(pdus, rule);
            && r.Some? && (r.value.complete <==> |pdus| == |parts|)
            && (r.value.complete ==> Whole(r.value, Argument(pdus[|pdus| - 1])).contents == Join(parts))
  {
    var n := |pdus| - 1;
    FeedIsArrive(id, parts, pdus, rule);
    ReassemblyIsComplete(id, parts, Later(n), rule);
    if n == |parts| - 1 {
      FedIsWhole(Feed(pdus, rule).value, id, parts, n, rule);
      assert Argument(pdus[n]) == Piece(id, parts, n);
    }
  }

  /** The device has the content from these pdus in order, none rejected, and not before the last. */
  ghost predicate ReadsBack(pdus: seq<Pdu>, content: Bytes, rule: ShiftRule) {
    && (forall j :: 0 <= j < |pdus| ==> Feed(pdus[..j], rule).Some? && !Feed(pdus[..j], rule).value.complete)
    && pdus != [] && Feed(pdus, rule).Some? && Feed(pdus, rule).value.complete
    && Whole(Feed(pdus, rule).value, Argument(pdus[|pdus| - 1])).contents == content
  }

  lemma {:induction false} PiecesReadBack(id: Uint32, parts: seq<Bytes>, pdus: seq<Pdu>, rule: ShiftRule)
    requires 2 <= |parts| == |pdus| <= MTSUA_MAX_SEGMENTS && AsPieces(pdus, id, parts)
    ensures ReadsBack(pdus, Join(parts), rule) <==> |parts| < MTSUA_MAX_SEGMENTS || rule.ShiftsOut?
  {
    if |parts| < MTSUA_MAX_SEGMENTS || rule.ShiftsOut? {
      forall j | 0 <= j < |pdus| ensures Feed(pdus[..j], rule).Some? && !Feed(pdus[..j], rule).value.complete {
        if j == 0 {
          assert pdus[..0] == [];
        } else {
          FedInOrder(id, parts, pdus[..j], rule);
        }
      }
      FedInOrder(id, parts, pdus, rule);
    } else {
      FeedIsArrive(id, parts, pdus, rule);
      ThirtyTwoSegments(id, parts, Later(|pdus| - 1), rule);
    }
  }

  lemma {:induction false} SegmentsReadBack(content: Bytes, id: Uint32, pdus: seq<Pdu>, rule: ShiftRule)
    requires NeedsCutting(|content|) && !TooManySegments(|content|)
    requires |pdus| == |Pieces(content)| && Segments(pdus, content, id)
    ensures ReadsBack(pdus, content, rule) <==> |content| <= 43400 || rule.ShiftsOut?
  {
    SegmentsArePieces(content, id, pdus);
    CutIsExact(content);
    PiecesReadBack(id, Pieces(content), pdus, rule);
  }

  /**
   What a device receives from a delivery that succeeded: of a content that is cut, the pdus with a result,
   in order, are all accepted, complete the message at the last one and not before, and give the content back,
   if and only if it needs at most 31 segments or `1 << 32` is zero; of any other content, the first pdu is
   the content itself.
   */
  lemma {:induction false} DeliveredIsRead(content: Bytes, es: seq<Event>, rule: ShiftRule)
    requires DeliveryRun(PlanFor(content), es) && Run(Fresh(PlanFor(content)), es).phase == Done(Succeeded)
    ensures var pdus := Answered(Run(Fresh(PlanFor(content)), es).log);
            && pdus != []
            && if NeedsCutting(|content|) then ReadsBack(pdus, content, rule) <==> |content| <= 43400 || rule.ShiftsOut?
               else pdus[0] == Pdu(None, content) && (|pdus| > 1 ==> pdus == [pdus[0], Pdu(Some(Other(0, 1)), [])])
  {
    var plan := PlanFor(content);
    var m := Run(Fresh(plan), es);
    RunSound(plan, es);
    RunNumbered(content, es);
    AnsweredInOrder(plan, es[0].id, content, m.sequenceId, m.log);
    PlanIsExact(content);
    var pdus := Answered(m.log);
    assert |pdus| == Needed(m);
    if NeedsCutting(|content|) {
      SegmentsReadBack(content, es[0].id, pdus, rule);
    } else {
      assert Carries(pdus[0], content, es[0].id, 0);
      assert |pdus| > 1 ==> Carries(pdus[1], content, es[0].id, 1);
    }
  }

  // ---------- a delivery without a hitch ----------

  /** A request and k results, every invocation taken by the transport. */
  function Smooth(id: Uint32, k: nat): seq<Event> {
    [Event(DELIVER_REQ, true, id)] + seq(k, _ => Event(RESULT_IND, true, 0))
  }

  /** Waiting for the result of piece k. */
  ghost predicate OnItsWay(m: Machine, plan: Plan, k: nat) {
    m.plan == plan && m.phase.Waiting? && m.sent && m.piece == k && (m.complete <==> k == |plan.parts| - 1)
  }

  lemma {:induction false} RequestIsOnItsWay(plan: Plan, id: Uint32)
    requires PlanOk(plan) && !TooMany(plan)
    ensures OnItsWay(Begin(Fresh(plan), true, id), plan, 0)
  {
  }

  lemma {:induction false} ResultMovesOn(m: Machine, plan: Plan, k: nat)
    requires OnItsWay(m, plan, k) && k < |plan.parts|
    ensures Allowed(m, RESULT_IND)
    ensures var m' := Step(m, RESULT_IND, true, 0);
            if k + 1 < |plan.parts| then OnItsWay(m', plan, k + 1) else m'.phase == Done(Succeeded)
  {
  }

  lemma {:induction false} SmoothRuns(plan: Plan, id: Uint32, k: nat)
    requires PlanOk(plan) && !TooMany(plan) && k <= |plan.parts|
    ensures var m := Run(Fresh(plan), Smooth(id, k));
            if k < |plan.parts| then OnItsWay(m, plan, k) else m.phase == Done(Succeeded)
  {
    if k == 0 {
      RunOne(Fresh(plan), [], Event(DELIVER_REQ, true, id));
      assert Smooth(id, 0) == [] + [Event(DELIVER_REQ, true, id)];
      RequestIsOnItsWay(plan, id);
    } else {
      SmoothRuns(plan, id, k - 1);
      RunOne(Fresh(plan), Smooth(id, k - 1), Event(RESULT_IND, true, 0));
      assert Smooth(id, k) == Smooth(id, k - 1) + [Event(RESULT_IND, true, 0)];
      ResultMovesOn(Run(Fresh(plan), Smooth(id, k - 1)), plan, k - 1);
    }
  }

  lemma {:induction false} SmoothIsAllowed(plan: Plan, id: Uint32, k: nat, i: nat)
    requires PlanOk(plan) && !TooMany(plan) && i <= k <= |plan.parts|
    ensures Allowed(Run(Fresh(plan), Smooth(id, k)[..i]), Smooth(id, k)[i].evt)
  {
    if i > 0 {
      SmoothRuns(plan, id, i - 1);
      assert Smooth(id, k)[..i] == Smooth(id, i - 1);
    }
  }

  lemma {:induction false} SmoothIsRun(plan: Plan, id: Uint32, k: nat)
    requires PlanOk(plan) && !TooMany(plan) && k <= |plan.parts|
    ensures DeliveryRun(plan, Smooth(id, k))
  {
    forall i | 0 <= i < |Smooth(id, k)| ensures Allowed(Run(Fresh(plan), Smooth(id, k)[..i]), Smooth(id, k)[i].evt) {
      SmoothIsAllowed(plan, id, k, i);
    }
  }

  /**
   When the transport takes everything and every segment is answered, the delivery succeeds with the last
   answer, for every content that can be sent; so its content reaches the device as DeliveredIsRead says.
   */
  lemma {:induction false} SmoothDelivery(content: Bytes, id: Uint32)
    requires !TooManySegments(|content|)
    ensures var es := Smooth(id, |Pieces(content)|);
            && DeliveryRun(PlanFor(content), es)
            && Run(Fresh(PlanFor(content)), es).phase == Done(Succeeded)
  {
    PlanIsExact(content);
    SmoothRuns(PlanFor(content), id, |Pieces(content)|);
    SmoothIsRun(PlanFor(content), id, |Pieces(content)|);
  }
}
