/**
 Collecting the segments of a submission (segment.c). Assembly is the meaning: the pieces
 received so far by number. Segments is the code: two bit masks, 32 slots, and a loop that
 appends the slots when the masks agree.
 */
module Reassembly {
  import opened Common
  import opened Words

  const MTSUA_MAX_SEGMENTS: nat := 32

  datatype SegmentInfo =
    | First(sequenceId: Uint32, numSegments: Uint32)
    | Other(sequenceId: Uint32, thisSegment: Uint32)

  /** `ipm` says that the content type is EMSD_ContentType_Ipm95. */
  datatype SubmitArg = SubmitArg(segmentInfo: Option<SegmentInfo>, ipm: bool, contents: Bytes)

  /** C does not define `1 << 32`: a machine may shift the bit out or shift by the count modulo 32. */
  datatype ShiftRule = ShiftsOut | CountModuloWidth

  function ShiftOne(n: nat, rule: ShiftRule): (w: Word)
    ensures |w| == WIDTH
  {
    One(WIDTH, if rule.CountModuloWidth? then n % WIDTH else n)
  }

  // ---------- the meaning ----------

  datatype Assembly = Assembly(
    sequenceId: Uint32,
    last: Uint32,               // number of the last segment
    next: nat,                  // nextSegmentNumber
    expected: set<nat>,
    received: map<nat, Bytes>,
    complete: bool,
    first: Option<SubmitArg>)

  const FRESH := Assembly(0, 0, 0, {}, map[], false, None)

  /** The segment numbers a first segment announcing n pieces makes the receiver expect. */
  function Expected(n: nat, rule: ShiftRule): set<nat> {
    if n < WIDTH || rule.ShiftsOut? then Below(n) else {}
  }

  /** The expected mask has the expected numbers as its members. */
  lemma ExpectedMask(n: nat, rule: ShiftRule)
    requires n <= WIDTH
    ensures Members(MinusOne(ShiftOne(n, rule))) == Expected(n, rule)
  {
    BelowMembers(WIDTH, if rule.CountModuloWidth? then n % WIDTH else n);
    assert Below(0) == {};
  }

  /** What an assembly keeps between segments. */
  ghost predicate Sound(a: Assembly) {
    && (a.expected == {} || (1 <= a.last < MTSUA_MAX_SEGMENTS && a.expected == Below(a.last as nat + 1)))
    && (a.expected != {} ==>
          && a.first.Some?
          && 0 in a.received && a.received.Keys <= a.expected
          && (a.complete <==> a.received.Keys == a.expected)
          && a.next == if a.complete then |a.received| - 1 else |a.received|)
  }

  /** A first segment that made the receiver expect pieces announced at least two of them, and at most 32. */
  predicate Announced(a: Assembly) {
    a.expected != {} && a.first.Some? && a.first.value.segmentInfo.Some? && a.first.value.segmentInfo.value.First? ==>
      2 <= a.first.value.segmentInfo.value.numSegments <= MTSUA_MAX_SEGMENTS
  }

  /** The pieces in order. */
  function PiecesOf(a: Assembly): (parts: seq<Bytes>)
    requires forall i :: 0 <= i <= a.last ==> i in a.received
    ensures |parts| == a.last + 1 && forall i :: 0 <= i <= a.last ==> parts[i] == a.received[i]
  {
    seq(a.last + 1, i requires 0 <= i <= a.last => a.received[i])
  }

  function Content(a: Assembly): Bytes
    requires forall i :: 0 <= i <= a.last ==> i in a.received
  {
    Join(PiecesOf(a))
  }

  /** One segment: whether it is accepted, and the assembly after it. */
  function Receive(a: Assembly, arg: SubmitArg, rule: ShiftRule): (bool, Assembly)
    requires arg.segmentInfo.Some?
  {
    match arg.segmentInfo.value
    case First(id, n) =>
      if n == 1 then (true, a.(complete := true))
      else if n == 0 || n > MTSUA_MAX_SEGMENTS then (false, a.(last := (n as int - 1) % 0x1_0000_0000))
      else (true, Assembly(id, n - 1, 1, Expected(n, rule), map[0 := arg.contents], a.complete, Some(arg)))
    case Other(_, t) =>
      if t >= WIDTH || t !in a.expected - a.received.Keys then (false, a)
      else
        var received := a.received[t as nat := arg.contents];
        if received.Keys == a.expected then (true, a.(received := received, complete := true))
        else (true, a.(received := received, next := a.next + 1))
  }

  /** The argument whose contents are parsed once the operation is complete. */
  function Whole(a: Assembly, arg: SubmitArg): SubmitArg {
    if arg.segmentInfo.Some? && arg.segmentInfo.value.Other? && a.first.Some?
       && (forall i :: 0 <= i <= a.last ==> i in a.received)
    then a.first.value.(contents := Content(a))
    else arg
  }

  lemma FirstKeepsSound(a: Assembly, arg: SubmitArg, rule: ShiftRule)
    requires arg.segmentInfo.Some? && arg.segmentInfo.value.First?
    requires !a.complete && (a.expected == {} || a.first == Some(arg))
    requires Sound(a) && Announced(a)
    ensures Sound(Receive(a, arg, rule).1)
  {
    var n: nat := arg.segmentInfo.value.numSegments;
    assert n >= 2 ==> 0 in Below(n) && 1 in Below(n);
  }

  lemma {:induction false} OtherKeepsSound(a: Assembly, arg: SubmitArg, rule: ShiftRule)
    requires Sound(a)
    requires arg.segmentInfo.Some? && arg.segmentInfo.value.Other?
    ensures Sound(Receive(a, arg, rule).1)
  {
    var t: nat := arg.segmentInfo.value.thisSegment;
    if t < WIDTH && t in a.expected - a.received.Keys {
      var received := a.received[t := arg.contents];
      assert received.Keys == a.received.Keys + {t};
      assert |received| == |a.received| + 1;
    }
  }

  // ---------- any order of arrival ----------

  function Piece(id: Uint32, parts: seq<Bytes>, i: nat): SubmitArg
    requires i < |parts| <= MTSUA_MAX_SEGMENTS
  {
    SubmitArg(Some(if i == 0 then First(id, |parts|) else Other(id, i)), true, parts[i])
  }

  /** The assembly after the first piece and then the pieces numbered by `order`; None if one was rejected. */
  function Arrive(id: Uint32, parts: seq<Bytes>, order: seq<nat>, rule: ShiftRule): Option<Assembly>
    requires 2 <= |parts| <= MTSUA_MAX_SEGMENTS
    requires forall k :: 0 <= k < |order| ==> 1 <= order[k] < |parts|
  {
    if order == [] then
      var (ok, a) := Receive(FRESH, Piece(id, parts, 0), rule);
      if ok then Some(a) else None
    else
      match Arrive(id, parts, order[..|order| - 1], rule)
      case None => None
      case Some(a) =>
        var (ok, a') := Receive(a, Piece(id, parts, order[|order| - 1]), rule);
        if ok then Some(a') else None
  }

  predicate Distinct(order: seq<nat>) {
    forall i, j :: 0 <= i < j < |order| ==> order[i] != order[j]
  }

  /** Segments already here, by number. */
  function Arrived(order: seq<nat>): set<nat> { {0} + set k | k in order }

  /** What has been collected once the pieces numbered by `order` followed the first one. */
  ghost predicate Collected(a: Assembly, id: Uint32, parts: seq<Bytes>, order: seq<nat>)
    requires 2 <= |parts| <= MTSUA_MAX_SEGMENTS
  {
    && Sound(a)
    && a.last == |parts| - 1 && a.expected == Below(|parts|) && a.sequenceId == id
    && a.first == Some(Piece(id, parts, 0))
    && a.received.Keys == Arrived(order)
    && (forall i :: i in a.received ==> i < |parts| && a.received[i] == parts[i])
  }

  lemma FirstCollected(id: Uint32, parts: seq<Bytes>, rule: ShiftRule)
    requires 2 <= |parts| <= MTSUA_MAX_SEGMENTS && (|parts| < WIDTH || rule.ShiftsOut?)
    ensures Receive(FRESH, Piece(id, parts, 0), rule).0
    ensures Collected(Receive(FRESH, Piece(id, parts, 0), rule).1, id, parts, [])
  {
    assert Sound(FRESH) && Announced(FRESH);
    FirstKeepsSound(FRESH, Piece(id, parts, 0), rule);
    assert Arrived([]) == {0};
  }

  lemma {:induction false} OneMoreCollected(a: Assembly, id: Uint32, parts: seq<Bytes>, order: seq<nat>, t: nat, rule: ShiftRule)
    requires 2 <= |parts| <= MTSUA_MAX_SEGMENTS && Collected(a, id, parts, order)
    requires 1 <= t < |parts| && t !in order
    ensures Receive(a, Piece(id, parts, t), rule).0
    ensures Collected(Receive(a, Piece(id, parts, t), rule).1, id, parts, order + [t])
  {
    var arg := Piece(id, parts, t);
    OtherKeepsSound(a, arg, rule);
    var received := a.received[t := parts[t]];
    assert t in a.expected - a.received.Keys;
    assert received.Keys == a.received.Keys + {t};
    assert Arrived(order + [t]) == Arrived(order) + {t};
    assert Receive(a, arg, rule).1.received == received;
  }

  lemma ArriveStep(id: Uint32, parts: seq<Bytes>, before: seq<nat>, t: nat, rule: ShiftRule)
    requires 2 <= |parts| <= MTSUA_MAX_SEGMENTS
    requires forall k :: 0 <= k < |before| ==> 1 <= before[k] < |parts|
    requires 1 <= t < |parts|
    ensures Arrive(id, parts, before + [t], rule) ==
            match Arrive(id, parts, before, rule)
            case None => None
            case Some(a) =>
              if Receive(a, Piece(id, parts, t), rule).0 then Some(Receive(a, Piece(id, parts, t), rule).1) else None
  {
    assert (before + [t])[..|before|] == before;
  }

  /** Every order of distinct later pieces is accepted, and each piece lands under its own number. */
  lemma {:induction false} ArriveReceives(id: Uint32, parts: seq<Bytes>, order: seq<nat>, rule: ShiftRule)
    requires 2 <= |parts| <= MTSUA_MAX_SEGMENTS && (|parts| < WIDTH || rule.ShiftsOut?)
    requires forall k :: 0 <= k < |order| ==> 1 <= order[k] < |parts|
    requires Distinct(order)
    ensures Arrive(id, parts, order, rule).Some?
    ensures Collected(Arrive(id, parts, order, rule).value, id, parts, order)
  {
    if order == [] {
      FirstCollected(id, parts, rule);
    } else {
      var before, t := order[..|order| - 1], order[|order| - 1];
      assert order == before + [t];
      ArriveReceives(id, parts, before, rule);
      ArriveStep(id, parts, before, t, rule);
      OneMoreCollected(Arrive(id, parts, before, rule).value, id, parts, before, t, rule);
    }
  }

  /** The order lists every later piece exactly when everything has arrived. */
  lemma ArrivedAll(order: seq<nat>, n: nat)
    requires n >= 1 && Distinct(order)
    requires forall k :: 0 <= k < |order| ==> 1 <= order[k] < n
    ensures Arrived(order) == Below(n) <==> |order| == n - 1
  {
    ArrivedCount(order);
    assert Arrived(order) <= Below(n);
    BelowSize(n);
    if |order| == n - 1 {
      SubsetOfSameSize(Arrived(order), Below(n));
    }
  }

  lemma {:induction false} ArrivedCount(order: seq<nat>)
    requires Distinct(order) && 0 !in order
    ensures |Arrived(order)| == |order| + 1
  {
    if order == [] {
      assert Arrived(order) == {0};
    } else {
      var n := |order| - 1;
      assert order == order[..n] + [order[n]];
      ArrivedCount(order[..n]);
      assert order[n] !in order[..n];
      assert Arrived(order) == Arrived(order[..n]) + {order[n]};
    }
  }

  lemma {:induction false} SubsetOfSameSize(a: set<nat>, b: set<nat>)
    requires a <= b && |a| == |b|
    ensures a == b
  {
    if x :| x in b && x !in a {
      SubsetIsSmaller(a, b - {x});
    }
  }

  lemma {:induction false} SubsetIsSmaller(a: set<nat>, b: set<nat>)
    requires a <= b
    ensures |a| <= |b|
  {
    if a != {} {
      var x :| x in a;
      SubsetIsSmaller(a - {x}, b - {x});
    }
  }

  /**
   The segments of one message put together again: whatever the order of the later pieces,
   the operation is complete after the last missing one and not before, and its content is then
   the pieces in order.
   */
  lemma ReassemblyIsComplete(id: Uint32, parts: seq<Bytes>, order: seq<nat>, rule: ShiftRule)
    requires 2 <= |parts| <= MTSUA_MAX_SEGMENTS && (|parts| < WIDTH || rule.ShiftsOut?)
    requires forall k :: 0 <= k < |order| ==> 1 <= order[k] < |parts|
    requires Distinct(order)
    ensures var r := Arrive(id, parts, order, rule);
            && r.Some?
            && (r.value.complete <==> |order| == |parts| - 1)
            && (r.value.complete ==>
                  Whole(r.value, Piece(id, parts, 1)).contents == Join(parts))
  {
    ArriveReceives(id, parts, order, rule);
    ArrivedAll(order, |parts|);
    var a := Arrive(id, parts, order, rule).value;
    if a.complete {
      CollectedContent(a, id, parts, order);
    }
  }

  lemma CollectedContent(a: Assembly, id: Uint32, parts: seq<Bytes>, order: seq<nat>)
    requires 2 <= |parts| <= MTSUA_MAX_SEGMENTS && Collected(a, id, parts, order) && a.complete
    ensures Whole(a, Piece(id, parts, 1)).contents == Join(parts)
  {
    forall i | 0 <= i <= a.last ensures i in a.received {
      assert i in Below(|parts|);
    }
    assert PiecesOf(a) == parts;
  }

  /** A later segment is accepted exactly when it is one of those announced and not there yet; refused, it changes nothing. */
  lemma {:induction false} AcceptedExactly(id: Uint32, parts: seq<Bytes>, order: seq<nat>, rule: ShiftRule, arg: SubmitArg)
    requires 2 <= |parts| <= MTSUA_MAX_SEGMENTS && (|parts| < WIDTH || rule.ShiftsOut?)
    requires forall k :: 0 <= k < |order| ==> 1 <= order[k] < |parts|
    requires Distinct(order) && arg.segmentInfo.Some? && arg.segmentInfo.value.Other?
    ensures var t, r := arg.segmentInfo.value.thisSegment, Arrive(id, parts, order, rule);
            && r.Some?
            && (Receive(r.value, arg, rule).0 <==> 1 <= t < |parts| && t !in order)
            && (!Receive(r.value, arg, rule).0 ==> Receive(r.value, arg, rule).1 == r.value)
  {
    ArriveReceives(id, parts, order, rule);
    AwaitedExactly(Arrive(id, parts, order, rule).value, id, parts, order, arg.segmentInfo.value.thisSegment);
  }

  lemma {:induction false} AwaitedExactly(a: Assembly, id: Uint32, parts: seq<Bytes>, order: seq<nat>, t: nat)
    requires 2 <= |parts| <= MTSUA_MAX_SEGMENTS && Collected(a, id, parts, order)
    ensures t < WIDTH && t in a.expected - a.received.Keys <==> 1 <= t < |parts| && t !in order
  {
    assert t in a.received.Keys <==> t in Arrived(order);
  }

  /**
   A first segment is accepted exactly when it announces from 1 to 32 segments; with several it starts the
   assembly with its own contents, with one it completes it, and refused it leaves only its count.
   */
  lemma {:induction false} FirstAcceptedExactly(a: Assembly, arg: SubmitArg, rule: ShiftRule)
    requires arg.segmentInfo.Some? && arg.segmentInfo.value.First?
    ensures var n := arg.segmentInfo.value.numSegments;
            var (ok, a') := Receive(a, arg, rule);
            && (ok <==> 1 <= n <= 32)
            && (n == 1 ==> a' == a.(complete := true))
            && (n == 0 ==> a' == a.(last := 0xFFFF_FFFF))
            && (n > 32 ==> a' == a.(last := n - 1))
            && (2 <= n <= 32 ==>
                  && a'.first == Some(arg) && a'.sequenceId == arg.segmentInfo.value.sequenceId && a'.complete == a.complete
                  && a'.received == map[0 := arg.contents] && a'.last == n - 1 && a'.next == 1)
  {
  }

  /** With 32 pieces the outcome rests on what the machine does with a shift by 32. */
  lemma ThirtyTwoSegments(id: Uint32, parts: seq<Bytes>, order: seq<nat>, rule: ShiftRule)
    requires |parts| == MTSUA_MAX_SEGMENTS
    requires forall k :: 0 <= k < |order| ==> 1 <= order[k] < |parts|
    requires Distinct(order) && order != []
    ensures Arrive(id, parts, order, rule).Some? <==> rule.ShiftsOut?
  {
    if rule.ShiftsOut? {
      ArriveReceives(id, parts, order, rule);
    } else {
      NothingExpected(id, parts, order, rule);
    }
  }

  lemma {:induction false} NothingExpected(id: Uint32, parts: seq<Bytes>, order: seq<nat>, rule: ShiftRule)
    requires |parts| == MTSUA_MAX_SEGMENTS && rule.CountModuloWidth?
    requires forall k :: 0 <= k < |order| ==> 1 <= order[k] < |parts|
    requires order != []
    ensures Arrive(id, parts, order, rule).None?
  {
    var before := order[..|order| - 1];
    if before == [] {
      assert Receive(FRESH, Piece(id, parts, 0), rule).1.expected == {};
    } else {
      NothingExpected(id, parts, before, rule);
    }
  }

  // ---------- the code ----------

  class Segments {
    var bComplete: bool
    var hFirstOperationData: Option<SubmitArg>
    const hSegmentBuf: array<Option<Bytes>>
    var expectedSegmentMask: Word
    var receivedSegmentMask: Word
    var sequenceId: Uint32
    var lastSegmentNumber: Uint32
    var nextSegmentNumber: nat

    constructor ()
      ensures Valid() && SlotsMatch() && View() == FRESH && fresh(hSegmentBuf)
    {
      bComplete, hFirstOperationData := false, None;
      hSegmentBuf := new Option<Bytes>[WIDTH](_ => None);
      expectedSegmentMask, receivedSegmentMask := seq(WIDTH, _ => false), seq(WIDTH, _ => false);
      sequenceId, lastSegmentNumber, nextSegmentNumber := 0, 0, 0;
    }

    ghost predicate Shaped()
      reads this, hSegmentBuf
    {
      && hSegmentBuf.Length == WIDTH
      && |expectedSegmentMask| == |receivedSegmentMask| == WIDTH
      && (forall i :: 0 <= i < WIDTH && receivedSegmentMask[i] ==> hSegmentBuf[i].Some?)
    }

    ghost predicate Valid()
      reads this, hSegmentBuf
    {
      Shaped() && Sound(View())
    }

    /** A bit is set exactly where a slot is filled. */
    ghost predicate SlotsMatch()
      reads this, hSegmentBuf
      requires Shaped()
    {
      forall i :: 0 <= i < WIDTH ==> (receivedSegmentMask[i] <==> hSegmentBuf[i].Some?)
    }

    ghost function View(): Assembly
      reads this, hSegmentBuf
      requires Shaped()
    {
      Assembly(sequenceId, lastSegmentNumber, nextSegmentNumber, Members(expectedSegmentMask),
               map i | i in Members(receivedSegmentMask) :: hSegmentBuf[i].value,
               bComplete, hFirstOperationData)
    }

    /** The segmented part of pS1S2a; `whole` is what it goes on to parse once the operation is complete. */
    method HandleSegment(arg: SubmitArg, rule: ShiftRule) returns (ok: bool, whole: SubmitArg)
      requires Valid() && arg.segmentInfo.Some?
      modifies this, hSegmentBuf
      ensures Shaped() && (ok, View()) == Receive(old(View()), arg, rule)
      ensures ok && bComplete ==> whole == Whole(View(), arg)
      ensures (old(SlotsMatch()) && (arg.segmentInfo.value.First? ==> old(Members(receivedSegmentMask)) <= {0})) ==>
                SlotsMatch()
    {
      whole := arg;
      match arg.segmentInfo.value
      case First(id, numSegments) =>
        ok := HandleFirst(arg, id, numSegments, rule);
      case Other(_, thisSeg) =>
        ok := HandleOther(arg, thisSeg, rule);
        if ok && bComplete {
          var full := Concatenate();
          whole := hFirstOperationData.value.(contents := full);
        }
    }

    method HandleFirst(arg: SubmitArg, id: Uint32, numSegments: Uint32, rule: ShiftRule) returns (ok: bool)
      requires Valid() && arg.segmentInfo == Some(First(id, numSegments))
      modifies this, hSegmentBuf
      ensures Shaped() && (ok, View()) == Receive(old(View()), arg, rule)
      ensures old(SlotsMatch()) && old(Members(receivedSegmentMask)) <= {0} ==> SlotsMatch()
    {
      if numSegments == 1 {
        SetComplete();
        return true;
      }
      var lastNumber: int := (numSegments as int - 1) % 0x1_0000_0000;
      SetLast(lastNumber);
      if lastSegmentNumber >= MTSUA_MAX_SEGMENTS {
        return false;
      }
      Begin(arg, id, rule);
      ok := true;
    }

    method SetComplete()
      requires Shaped()
      modifies this`bComplete
      ensures Shaped() && View() == old(View()).(complete := true)
    {
      ghost var a := View();
      bComplete := true;
      assert View().received == a.received;
    }

    method SetLast(number: Uint32)
      requires Shaped()
      modifies this`lastSegmentNumber
      ensures Shaped() && View() == old(View()).(last := number)
    {
      ghost var a := View();
      lastSegmentNumber := number;
      assert View().received == a.received;
    }

    /** Start a collection of `lastSegmentNumber + 1` pieces with piece 0. */
    method Begin(arg: SubmitArg, id: Uint32, rule: ShiftRule)
      requires Shaped() && 1 <= lastSegmentNumber < MTSUA_MAX_SEGMENTS
      modifies this, hSegmentBuf
      ensures Shaped()
      ensures View() == Assembly(id, old(lastSegmentNumber), 1, Expected(old(lastSegmentNumber) as nat + 1, rule),
                                 map[0 := arg.contents], old(bComplete), Some(arg))
      ensures old(SlotsMatch()) && old(Members(receivedSegmentMask)) <= {0} ==> SlotsMatch()
    {
      nextSegmentNumber := 1;
      sequenceId := id;
      hFirstOperationData := Some(arg);
      expectedSegmentMask := MinusOne(ShiftOne(lastSegmentNumber as nat + 1, rule));
      ExpectedMask(lastSegmentNumber as nat + 1, rule);
      KeepOnlyFirst(arg.contents);
    }

    method KeepOnlyFirst(contents: Bytes)
      requires Shaped()
      modifies this`receivedSegmentMask, hSegmentBuf
      ensures Shaped() && Members(receivedSegmentMask) == {0} && View().received == map[0 := contents]
      ensures old(SlotsMatch()) && old(Members(receivedSegmentMask)) <= {0} ==> SlotsMatch()
    {
      ghost var oldMask := receivedSegmentMask;
      assert forall i :: 0 < i < WIDTH && oldMask[i] ==> i in Members(oldMask);
      hSegmentBuf[0] := Some(contents);
      receivedSegmentMask := One(WIDTH, 0);
      assert Members(receivedSegmentMask) == {0};
    }

    method HandleOther(arg: SubmitArg, thisSeg: Uint32, ghost rule: ShiftRule) returns (ok: bool)
      requires Valid() && arg.segmentInfo.Some? && arg.segmentInfo.value.Other?
      requires thisSeg == arg.segmentInfo.value.thisSegment
      modifies this, hSegmentBuf
      ensures Valid() && (ok, View()) == Receive(old(View()), arg, rule)
      ensures ok ==> Members(expectedSegmentMask) != {}
      ensures old(SlotsMatch()) ==> SlotsMatch()
    {
      ghost var a := View();
      OtherKeepsSound(a, arg, rule);
      var fits := Fits(thisSeg);
      if !fits {
        return false;
      }
      Store(thisSeg, arg.contents);
      assert thisSeg as nat in a.expected;
      ok := true;
    }

    /** The tests a later segment has to pass. */
    method Fits(thisSeg: Uint32) returns (fits: bool)
      requires Valid()
      ensures fits <==> thisSeg < WIDTH && thisSeg as nat in View().expected - View().received.Keys
    {
      if thisSeg > 31 { return false; }
      OneGreater(thisSeg, expectedSegmentMask);
      if Greater(One(WIDTH, thisSeg), expectedSegmentMask) {
        return false;
      }
      assert thisSeg as nat in View().expected by {
        var i :| i in Members(expectedSegmentMask) && i >= thisSeg;
        assert i in View().expected;
      }
      AndOneMembers(receivedSegmentMask, thisSeg);
      return IsZero(And(receivedSegmentMask, One(WIDTH, thisSeg)));
    }

    /** Keep a piece, mark it, and see whether that was the last one missing. */
    method Store(thisSeg: Uint32, contents: Bytes)
      requires Shaped() && thisSeg < WIDTH && thisSeg as nat !in View().received
      modifies this, hSegmentBuf
      ensures Shaped()
      ensures var a, received := old(View()), old(View()).received[thisSeg as nat := contents];
              View() == if received.Keys == a.expected then a.(received := received, complete := true)
                        else a.(received := received, next := a.next + 1)
      ensures old(SlotsMatch()) ==> SlotsMatch()
    {
      ghost var a := View();
      hSegmentBuf[thisSeg] := Some(contents);
      OrOneMembers(receivedSegmentMask, thisSeg);
      receivedSegmentMask := Or(receivedSegmentMask, One(WIDTH, thisSeg));
      SameMembers(expectedSegmentMask, receivedSegmentMask);
      ghost var received := a.received[thisSeg as nat := contents];
      assert received.Keys == Members(receivedSegmentMask);
      assert View().received == received;
      if expectedSegmentMask == receivedSegmentMask {
        bComplete := true;
      } else {
        nextSegmentNumber := nextSegmentNumber + 1;
      }
      assert View().received == received;
    }

    /** The loop that appends the slots to the first one. */
    method Concatenate() returns (full: Bytes)
      requires Valid() && bComplete && Members(expectedSegmentMask) != {}
      ensures forall i :: 0 <= i <= lastSegmentNumber ==> i in View().received
      ensures full == Content(View())
    {
      ghost var a := View();
      forall i | 0 <= i <= a.last ensures i in a.received {
        assert i in a.expected;
      }
      ghost var pieces := PiecesOf(a);
      full := hSegmentBuf[0].value;
      var i := 1;
      assert pieces[..1] == [pieces[0]];
      assert Join(pieces[..1]) == pieces[0] + Join([]);
      while i <= lastSegmentNumber
        invariant 1 <= i <= lastSegmentNumber + 1
        invariant full == Join(pieces[..i])
      {
        JoinAppend(pieces[..i], pieces[i]);
        assert pieces[..i + 1] == pieces[..i] + [pieces[i]];
        assert i in a.received;
        full := full + hSegmentBuf[i].value;
        i := i + 1;
      }
      assert pieces[..i] == pieces;
    }
  }
}
