/**
 How a delivery is cut (deliver.c, aS1S2a): sent whole, cut into numbered pieces of at most
 SEGMENT_LENGTH octets, or refused because it needs too many of them.
 */
module Cutting {
  import opened Common
  import opened Reassembly

  const MAX_CONNECTIONLESS: nat := 1500
  const MIN_CONNECTION_ORIENTED: nat := MTSUA_MAX_SEGMENTS * MAX_CONNECTIONLESS
  const MAX_DELIVER_ARG: nat := 100
  const SEGMENT_LENGTH: nat := 1400   // MAX_CONNECTIONLESS - MAX_DELIVER_ARG

  /** The length test: too long for one datagram, too short for a connection. */
  predicate NeedsCutting(len: nat) {
    MAX_CONNECTIONLESS < len + MAX_DELIVER_ARG < MIN_CONNECTION_ORIENTED
  }

  function NumSegments(len: nat): nat {
    len / SEGMENT_LENGTH + if len % SEGMENT_LENGTH != 0 then 1 else 0
  }

  /** More pieces than the receiver has slots for: the delivery is given up before anything is sent. */
  predicate TooManySegments(len: nat) {
    NeedsCutting(len) && NumSegments(len) > MTSUA_MAX_SEGMENTS
  }

  /** Where piece k starts, and the last piece ends. */
  function Start(len: nat, k: nat): (p: nat)
    ensures p <= len
  {
    if k * SEGMENT_LENGTH <= len then k * SEGMENT_LENGTH else len
  }

  lemma StartGrows(len: nat, k: nat)
    ensures Start(len, k) <= Start(len, k + 1)
  {
  }

  lemma StartNext(len: nat, k: nat)
    ensures Start(len, k + 1) == if Start(len, k) + SEGMENT_LENGTH <= len then Start(len, k) + SEGMENT_LENGTH else len
  {
  }

  function PieceOf(content: Bytes, k: nat): Bytes {
    StartGrows(|content|, k);
    content[Start(|content|, k)..Start(|content|, k + 1)]
  }

  /** What is transmitted for a content, in order. */
  function Pieces(content: Bytes): seq<Bytes> {
    if NeedsCutting(|content|) then seq(NumSegments(|content|), k requires k >= 0 => PieceOf(content, k))
    else [content]
  }

  lemma {:induction false} PiecesJoin(content: Bytes, k: nat)
    ensures Join(seq(k, i requires i >= 0 => PieceOf(content, i))) == content[..Start(|content|, k)]
  {
    if k == 0 {
      assert content[..Start(|content|, 0)] == [];
    } else {
      var parts := seq(k, i requires i >= 0 => PieceOf(content, i));
      var front := seq(k - 1, i requires i >= 0 => PieceOf(content, i));
      assert parts == front + [PieceOf(content, k - 1)];
      PiecesJoin(content, k - 1);
      JoinAppend(front, PieceOf(content, k - 1));
      StartGrows(|content|, k - 1);
    }
  }

  lemma CountCovers(len: nat)
    ensures NumSegments(len) * SEGMENT_LENGTH >= len
    ensures len > 0 ==> (NumSegments(len) - 1) * SEGMENT_LENGTH < len
  {
  }

  /**
   The cut is exact: nothing is lost, every piece fits in a datagram with its envelope, only the
   last may be short, and fewer pieces would not do.
   */
  lemma CutIsExact(content: Bytes)
    requires NeedsCutting(|content|)
    ensures var parts := Pieces(content);
            && |parts| >= 2
            && Join(parts) == content
            && (forall k :: 0 <= k < |parts| ==> 1 <= |parts[k]| && |parts[k]| + MAX_DELIVER_ARG <= MAX_CONNECTIONLESS)
            && (forall k :: 0 <= k < |parts| - 1 ==> |parts[k]| == SEGMENT_LENGTH)
            && (|parts| - 1) * SEGMENT_LENGTH < |content| <= |parts| * SEGMENT_LENGTH
  {
    var len := |content|;
    var n := NumSegments(len);
    CountCovers(len);
    PiecesJoin(content, n);
    assert content[..Start(len, n)] == content;
    forall k | 0 <= k < n
      ensures 1 <= |PieceOf(content, k)| <= SEGMENT_LENGTH
      ensures k < n - 1 ==> |PieceOf(content, k)| == SEGMENT_LENGTH
    {
      StartGrows(len, k);
    }
  }

  /** Which lengths need how many pieces. */
  lemma SegmentCounts(len: nat)
    ensures NeedsCutting(len) && NumSegments(len) < MTSUA_MAX_SEGMENTS <==> 1401 <= len <= 43400
    ensures NeedsCutting(len) && NumSegments(len) == MTSUA_MAX_SEGMENTS <==> 43401 <= len <= 44800
    ensures TooManySegments(len) <==> 44801 <= len <= 47899
  {
  }

  /**
   Cutting and reassembling is the identity: pieces cut from a content, the first one first and the
   others in any order, are all accepted, complete the operation at the last of them, and give the
   content back. A content that needs 32 pieces gets through only where `1 << 32` is zero.
   */
  lemma CutThenReassemble(content: Bytes, id: Uint32, order: seq<nat>, rule: ShiftRule)
    requires NeedsCutting(|content|) && !TooManySegments(|content|)
    requires |order| == |Pieces(content)| - 1 && Distinct(order)
    requires forall k :: 0 <= k < |order| ==> 1 <= order[k] < |Pieces(content)|
    ensures |content| <= 43400 || rule.ShiftsOut? <==>
            var r := Arrive(id, Pieces(content), order, rule);
            r.Some? && r.value.complete && Whole(r.value, Piece(id, Pieces(content), 1)).contents == content
  {
    var parts := Pieces(content);
    CutIsExact(content);
    SegmentCounts(|content|);
    if |content| <= 43400 || rule.ShiftsOut? {
      ReassemblyIsComplete(id, parts, order, rule);
    } else {
      ThirtyTwoSegments(id, parts, order, rule);
    }
  }

  /** What aS1S2a decides about a content before it sends anything. */
  datatype Plan = Plan(cut: bool, parts: seq<Bytes>)

  function PlanFor(content: Bytes): Plan {
    Plan(NeedsCutting(|content|), Pieces(content))
  }

  predicate TooMany(plan: Plan) {
    |plan.parts| > MTSUA_MAX_SEGMENTS
  }

  ghost predicate PlanOk(plan: Plan) {
    if plan.cut then |plan.parts| >= 2 else |plan.parts| == 1
  }

  /** A plan is to send the content whole, or cut into at least two pieces that join to it. */
  lemma PlanIsExact(content: Bytes)
    ensures PlanOk(PlanFor(content)) && Join(PlanFor(content).parts) == content
    ensures TooMany(PlanFor(content)) <==> TooManySegments(|content|)
  {
    SegmentCounts(|content|);
    if NeedsCutting(|content|) {
      CutIsExact(content);
    } else {
      assert Join([content]) == content + Join([]);
    }
  }
}
