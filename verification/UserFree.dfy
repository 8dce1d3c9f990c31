/**
 What an operation is to free when it ends (oper.c): functions registered with their data,
 unregistered by data alone, and called by mts_freeOperation.
 */
module UserFree {
  import opened Common

  /** Functions and data are told apart by numbers, as the code tells them apart by address. */
  datatype Free = Free(pfFree: nat, hUserData: nat)

  datatype Call = Add(free: Free) | Del(hUserData: nat)

  /** The list without its first entry for the data. */
  function Drop(list: seq<Free>, data: nat): seq<Free> {
    if list == [] then []
    else if list[0].hUserData == data then list[1..]
    else [list[0]] + Drop(list[1..], data)
  }

  /** What is registered after these calls. */
  function Registered(calls: seq<Call>): seq<Free> {
    if calls == [] then []
    else
      var before := Registered(calls[..|calls| - 1]);
      match calls[|calls| - 1]
      case Add(free) => before + [free]
      case Del(data) => Drop(before, data)
  }

  // ---------- seen from one piece of data ----------

  /** The functions registered for the data, oldest first. */
  function For(list: seq<Free>, data: nat): seq<nat> {
    if list == [] then []
    else One(list[0], data) + For(list[1..], data)
  }

  /** All functions ever registered for the data, oldest first. */
  function Added(calls: seq<Call>, data: nat): seq<nat> {
    if calls == [] then []
    else
      var c := calls[|calls| - 1];
      Added(calls[..|calls| - 1], data) + if c.Add? then One(c.free, data) else []
  }

  /** How many of them have been unregistered: a call to unregister counts when something is registered. */
  function Deleted(calls: seq<Call>, data: nat): (n: nat)
    ensures n <= |Added(calls, data)|
  {
    if calls == [] then 0
    else
      var front, c := calls[..|calls| - 1], calls[|calls| - 1];
      var n := Deleted(front, data);
      if c == Del(data) && n < |Added(front, data)| then n + 1 else n
  }

  /** The function of one registration, if it is for the data. */
  function One(free: Free, data: nat): seq<nat> {
    if free.hUserData == data then [free.pfFree] else []
  }

  lemma {:induction false} ForAppend(list: seq<Free>, last: Free, data: nat)
    ensures For(list + [last], data) == For(list, data) + One(last, data)
  {
    var all, g := list + [last], One(last, data);
    if list == [] {
      assert all[1..] == [] && For(all, data) == g + For([], data);
    } else {
      var f, rest := One(list[0], data), For(list[1..], data);
      assert all[0] == list[0] && all[1..] == list[1..] + [last];
      ForAppend(list[1..], last, data);
      assert For(all, data) == f + (rest + g);
      assert f + (rest + g) == (f + rest) + g;
    }
  }

  lemma {:induction false} ForDrop(list: seq<Free>, dropped: nat, data: nat)
    ensures For(Drop(list, dropped), data) ==
            if dropped == data && For(list, data) != [] then For(list, data)[1..] else For(list, data)
  {
    if list != [] && list[0].hUserData != dropped {
      ForDrop(list[1..], dropped, data);
      assert Drop(list, dropped)[1..] == Drop(list[1..], dropped);
      if list[0].hUserData == data {
        assert For(Drop(list, dropped), data) == [list[0].pfFree] + For(Drop(list[1..], dropped), data);
      }
    }
  }

  /**
   For each piece of data the registrations still in force are the latest ones, as many as have not
   been taken back: unregistering cancels the oldest, whatever its function.
   */
  lemma {:induction false} LatestRemain(calls: seq<Call>, data: nat)
    ensures For(Registered(calls), data) == Added(calls, data)[Deleted(calls, data)..]
  {
    if calls != [] {
      var front, c := calls[..|calls| - 1], calls[|calls| - 1];
      LatestRemain(front, data);
      match c
      case Add(free) => ForAppend(Registered(front), free, data);
      case Del(d) => ForDrop(Registered(front), d, data);
    }
  }

  /** Data unregistered as often as it was registered is not freed, and data never unregistered is freed as often as registered. */
  lemma TakenBackIsNotFreed(calls: seq<Call>, data: nat)
    ensures For(Registered(calls), data) == [] <==> Deleted(calls, data) == |Added(calls, data)|
    ensures Deleted(calls, data) == 0 ==> For(Registered(calls), data) == Added(calls, data)
  {
    LatestRemain(calls, data);
  }

  /** Where the entry to drop is. */
  lemma {:induction false} DropAt(list: seq<Free>, data: nat, i: nat)
    requires i <= |list| && forall k :: 0 <= k < i ==> list[k].hUserData != data
    requires i < |list| ==> list[i].hUserData == data
    ensures Drop(list, data) == if i < |list| then list[..i] + list[i + 1..] else list
  {
    if i > 0 {
      DropAt(list[1..], data, i - 1);
    }
  }

  // ---------- the code ----------

  class UserFreeQueue {
    var userFreeQHead: seq<Free>
    /** The functions called, with their data. */
    var called: seq<Free>
    ghost var calls: seq<Call>

    constructor ()
      ensures Valid() && calls == [] && called == []
    {
      userFreeQHead, called, calls := [], [], [];
    }

    ghost predicate Valid()
      reads this
    {
      userFreeQHead == Registered(calls)
    }

    /** mts_operationAddUserFree. */
    method AddUserFree(pfFree: nat, hUserData: nat)
      requires Valid()
      modifies this
      ensures Valid() && calls == old(calls) + [Add(Free(pfFree, hUserData))] && called == old(called)
    {
      userFreeQHead := userFreeQHead + [Free(pfFree, hUserData)];
      calls := calls + [Add(Free(pfFree, hUserData))];
    }

    /** mts_operationDelUserFree. */
    method DelUserFree(hUserData: nat)
      requires Valid()
      modifies this
      ensures Valid() && calls == old(calls) + [Del(hUserData)] && called == old(called)
    {
      var i := 0;
      while i < |userFreeQHead|
        invariant i <= |userFreeQHead|
        invariant forall k :: 0 <= k < i ==> userFreeQHead[k].hUserData != hUserData
      {
        if userFreeQHead[i].hUserData == hUserData {
          break;
        }
        i := i + 1;
      }
      DropAt(userFreeQHead, hUserData, i);
      if i < |userFreeQHead| {
        userFreeQHead := userFreeQHead[..i] + userFreeQHead[i + 1..];
      }
      calls := calls + [Del(hUserData)];
    }

    /** The loop of mts_freeOperation: take the first off the queue, and call it, until none is left. */
    method FreeAll()
      requires Valid()
      modifies this`userFreeQHead, this`called
      ensures userFreeQHead == [] && called == old(called) + Registered(calls)
    {
      while userFreeQHead != []
        invariant called + userFreeQHead == old(called) + Registered(calls)
        decreases |userFreeQHead|
      {
        var pOpFree := userFreeQHead[0];
        userFreeQHead := userFreeQHead[1..];
        called := called + [pOpFree];
      }
    }
  }
}
