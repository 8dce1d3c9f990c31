/**
 The subscriber array of subpro.c and its NSAP hash index: open addressing with linear
 probing, filled by SUB_init and walked by SUB_getEntry. The array position of an entry
 stands for the pointer to it.
 */
module NsapIndex {
  import opened Common

  const NSAP_HASH_SIZE: nat := 0x4000

  /** `address` is what the Subscriber-ID text denotes (Address.Denoted); None when it denotes none. */
  datatype Profile = Profile(address: Option<Uint32>, nsap: Nsap)

  /**
   What SUB_getEntry is asked for; a missing part is the NULL pointer. A subscriber id is
   again given by what its text denotes, which is all that emsdAuaEqual looks at.
   */
  datatype Query = Query(subscriber: Option<Option<Uint32>>, nsap: Option<Nsap>)

  predicate AuaEqual(d1: Option<Uint32>, d2: Option<Uint32>) { d1.Some? && d1 == d2 }

  predicate Fits(e: Profile, q: Query) {
    && (q.subscriber.Some? ==> AuaEqual(e.address, q.subscriber.value))
    && (q.nsap.Some? ==> e.nsap == q.nsap.value)
    && (q.subscriber.Some? || q.nsap.Some?)
  }

  /** The first position whose entry fits the query: the meaning of every lookup. */
  function First(entries: seq<Profile>, q: Query): (r: Option<nat>)
    ensures r.Some? ==> r.value < |entries| && Fits(entries[r.value], q)
    ensures r.Some? ==> forall i :: 0 <= i < r.value ==> !Fits(entries[i], q)
    ensures r.None? ==> forall i :: 0 <= i < |entries| ==> !Fits(entries[i], q)
  {
    if entries == [] then None
    else if Fits(entries[0], q) then Some(0)
    else match First(entries[1..], q) case None => None case Some(i) => Some(i + 1)
  }

  /** What a lookup asks for is what it says: the first entry with this address, or this NSAP, or both, and none when neither is asked for. */
  lemma {:induction false} FirstExactly(entries: seq<Profile>, address: Uint32, nsap: Nsap, i: nat)
    requires i < |entries|
    ensures First(entries, Query(Some(Some(address)), None)) == Some(i) <==>
            entries[i].address == Some(address) && forall k :: 0 <= k < i ==> entries[k].address != Some(address)
    ensures First(entries, Query(None, Some(nsap))) == Some(i) <==>
            entries[i].nsap == nsap && forall k :: 0 <= k < i ==> entries[k].nsap != nsap
    ensures First(entries, Query(Some(Some(address)), Some(nsap))) == Some(i) <==>
            entries[i] == Profile(Some(address), nsap) && forall k :: 0 <= k < i ==> entries[k] != Profile(Some(address), nsap)
    ensures First(entries, Query(None, None)).None? && First(entries, Query(Some(None), None)).None?
  {
    FirstIs(entries, Query(Some(Some(address)), None), i);
    FirstIs(entries, Query(None, Some(nsap)), i);
    FirstIs(entries, Query(Some(Some(address)), Some(nsap)), i);
  }

  lemma {:induction false} FirstIs(entries: seq<Profile>, q: Query, i: nat)
    requires i < |entries|
    ensures First(entries, q) == Some(i) <==> Fits(entries[i], q) && forall k :: 0 <= k < i ==> !Fits(entries[k], q)
  {
    var r := First(entries, q);
    if Fits(entries[i], q) && (forall k :: 0 <= k < i ==> !Fits(entries[k], q)) {
      assert r.Some? && !(r.value < i) && !(i < r.value);
    }
  }

  /** The slot a lookup of `n` starts at. */
  function Home(n: Nsap): (h: nat)
    ensures h < NSAP_HASH_SIZE
  {
    (n.a2 * 0x100 + n.a3) % NSAP_HASH_SIZE
  }

  /** The slot `d` steps after `h` in the circular table. */
  function Probe(h: nat, d: nat): (slot: nat)
    requires h < NSAP_HASH_SIZE && d <= NSAP_HASH_SIZE
    ensures slot < NSAP_HASH_SIZE
  {
    if h + d < NSAP_HASH_SIZE then h + d else h + d - NSAP_HASH_SIZE
  }

  /**
   The first `k` entries are placed: entry j sits `moved[j]` slots after its home slot,
   every slot it was pushed past holds an earlier entry, and nothing else is in the table.
   */
  ghost predicate Placed(table: seq<Option<nat>>, entries: seq<Profile>, moved: seq<nat>, k: nat) {
    && |table| == NSAP_HASH_SIZE
    && k <= |entries| && |moved| == k
    && (forall j :: 0 <= j < k ==> moved[j] < NSAP_HASH_SIZE)
    && (forall j :: 0 <= j < k ==> table[Probe(Home(entries[j].nsap), moved[j])] == Some(j))
    && (forall j, d :: 0 <= j < k && 0 <= d < moved[j] ==>
          OccupiedBefore(table, Probe(Home(entries[j].nsap), d), j))
    && (forall s :: 0 <= s < NSAP_HASH_SIZE && table[s].Some? ==>
          table[s].value < k && s == Probe(Home(entries[table[s].value].nsap), moved[table[s].value]))
  }

  predicate OccupiedBefore(table: seq<Option<nat>>, slot: nat, j: nat) {
    slot < |table| && table[slot].Some? && table[slot].value < j
  }

  /** A run of `d` slots holding entries below `j` is no longer than `j`. */
  lemma RunIsShort(table: seq<Option<nat>>, entries: seq<Profile>, moved: seq<nat>, k: nat, h: nat, d: nat, j: nat)
    requires Placed(table, entries, moved, k)
    requires h < NSAP_HASH_SIZE && d <= NSAP_HASH_SIZE
    requires forall e :: 0 <= e < d ==> OccupiedBefore(table, Probe(h, e), j)
    ensures d <= j
  {
    var held: seq<nat> := seq(d, e requires 0 <= e < d => table[Probe(h, e)].value);
    forall e, f | 0 <= e < f < d
      ensures held[e] != held[f]
    {
      assert Probe(h, e) != Probe(h, f);
    }
    Pigeonhole(held, j);
  }

  /** Placing an entry has come `diff` slots past its home, all of them taken by earlier entries. */
  ghost predicate Probing(table: seq<Option<nat>>, home: nat, index: nat, diff: nat, hash: nat)
    requires home < NSAP_HASH_SIZE
  {
    && diff <= index < NSAP_HASH_SIZE && hash == Probe(home, diff)
    && forall d :: 0 <= d < diff ==> OccupiedBefore(table, Probe(home, d), index)
  }

  lemma ProbeOn(table: seq<Option<nat>>, entries: seq<Profile>, moved: seq<nat>, index: nat, home: nat, diff: nat, hash: nat)
    requires Placed(table, entries, moved, index) && home < NSAP_HASH_SIZE
    requires Probing(table, home, index, diff, hash) && table[hash].Some?
    ensures Probing(table, home, index, diff + 1, (hash + 1) % NSAP_HASH_SIZE)
  {
    NextProbe(home, diff);
    assert OccupiedBefore(table, Probe(home, diff), index);
    RunIsShort(table, entries, moved, index, home, diff + 1, index);
  }

  /** With as many entries as slots there is no empty slot. */
  lemma FullTable(table: seq<Option<nat>>, entries: seq<Profile>, moved: seq<nat>, s: nat)
    requires Placed(table, entries, moved, NSAP_HASH_SIZE)
    requires s < NSAP_HASH_SIZE
    ensures table[s].Some?
  {
    var slots: seq<nat> := seq(NSAP_HASH_SIZE,
      j requires 0 <= j < NSAP_HASH_SIZE => Probe(Home(entries[j].nsap), moved[j]));
    forall i, j | 0 <= i < j < NSAP_HASH_SIZE
      ensures slots[i] != slots[j]
    {
      assert table[slots[i]] == Some(i) && table[slots[j]] == Some(j);
    }
    PigeonholeFull(slots, NSAP_HASH_SIZE, s);
    var j :| 0 <= j < NSAP_HASH_SIZE && slots[j] == s;
    assert table[s] == Some(j);
  }

  /** Where the first entry with NSAP `n` is found: after `moved[j] <= j` occupied slots without `n`. */
  lemma FirstIsReached(table: seq<Option<nat>>, entries: seq<Profile>, moved: seq<nat>, k: nat, n: Nsap, j: nat)
    requires Placed(table, entries, moved, k) && j < k
    requires entries[j].nsap == n && forall i :: 0 <= i < j ==> entries[i].nsap != n
    ensures moved[j] <= j && table[Probe(Home(n), moved[j])] == Some(j)
    ensures forall d :: 0 <= d < moved[j] ==>
              OccupiedBefore(table, Probe(Home(n), d), j) && entries[table[Probe(Home(n), d)].value].nsap != n
  {
    RunIsShort(table, entries, moved, k, Home(n), moved[j], j);
  }

  /** Where probe `i` of a lookup of `n` stands: on the way to the first entry with `n`, or at it. */
  ghost predicate OnTheWay(entries: seq<Profile>, moved: seq<nat>, n: Nsap, i: nat, hash: nat)
    requires |moved| == |entries|
  {
    var first := First(entries, Query(None, Some(n)));
    && hash < NSAP_HASH_SIZE
    && (first.Some? ==> i <= moved[first.value] < NSAP_HASH_SIZE && hash == Probe(Home(n), i))
  }

  /** What a probe meets decides the lookup, or sends it to the next slot. */
  lemma {:induction false} ProbeMeets(table: seq<Option<nat>>, entries: seq<Profile>, moved: seq<nat>, n: Nsap, i: nat, hash: nat)
    requires Placed(table, entries, moved, |entries|)
    requires OnTheWay(entries, moved, n, i, hash)
    ensures var first := First(entries, Query(None, Some(n)));
            match table[hash]
            case None => first.None?
            case Some(e) =>
              if entries[e].nsap == n then first == Some(e)
              else OnTheWay(entries, moved, n, i + 1, (hash + 1) % NSAP_HASH_SIZE)
  {
    var q := Query(None, Some(n));
    match First(entries, q)
    case None =>
      if table[hash].Some? {
        var e := table[hash].value;
        assert !Fits(entries[e], q);
      }
    case Some(j) =>
      assert Fits(entries[j], q);
      assert forall j' :: 0 <= j' < j ==> !Fits(entries[j'], q);
      assert moved[j] < NSAP_HASH_SIZE;
      ProbeMeetsEarlier(table, entries, moved, n, i, j);
      NextProbe(Home(n), i);
  }

  lemma NextProbe(h: nat, i: nat)
    requires h < NSAP_HASH_SIZE && i < NSAP_HASH_SIZE
    ensures (Probe(h, i) + 1) % NSAP_HASH_SIZE == Probe(h, i + 1)
  {
  }

  lemma ProbeMeetsEarlier(table: seq<Option<nat>>, entries: seq<Profile>, moved: seq<nat>, n: Nsap, i: nat, j: nat)
    requires Placed(table, entries, moved, |entries|) && j < |entries|
    requires entries[j].nsap == n && forall j' :: 0 <= j' < j ==> entries[j'].nsap != n
    requires i <= moved[j]
    ensures i == moved[j] ==> table[Probe(Home(n), i)] == Some(j)
    ensures i < moved[j] ==> OccupiedBefore(table, Probe(Home(n), i), j)
    ensures i < moved[j] ==> entries[table[Probe(Home(n), i)].value].nsap != n
  {
    FirstIsReached(table, entries, moved, |entries|, n, j);
  }

  /** No lookup takes more steps than there are entries before the one it looks for. */
  lemma {:induction false} StepsAreFew(table: seq<Option<nat>>, entries: seq<Profile>, moved: seq<nat>, n: Nsap, i: nat, hash: nat)
    requires Placed(table, entries, moved, |entries|)
    requires OnTheWay(entries, moved, n, i, hash)
    ensures First(entries, Query(None, Some(n))).Some? ==> i <= First(entries, Query(None, Some(n))).value
  {
    var q := Query(None, Some(n));
    var first := First(entries, q);
    if first.Some? {
      assert Fits(entries[first.value], q);
      assert forall j :: 0 <= j < first.value ==> !Fits(entries[j], q);
      FirstIsReached(table, entries, moved, |entries|, n, first.value);
    }
  }

  /** Putting entry k into the empty slot its probing reached keeps the table in order. */
  lemma {:induction false} PlaceNext(table: seq<Option<nat>>, entries: seq<Profile>, moved: seq<nat>, k: nat, d: nat)
    requires Placed(table, entries, moved, k)
    requires k < |entries| && d < NSAP_HASH_SIZE
    requires table[Probe(Home(entries[k].nsap), d)].None?
    requires forall e :: 0 <= e < d ==> OccupiedBefore(table, Probe(Home(entries[k].nsap), e), k)
    ensures Placed(table[Probe(Home(entries[k].nsap), d) := Some(k)], entries, moved + [d], k + 1)
  {
    var slot := Probe(Home(entries[k].nsap), d);
    var table', moved' := table[slot := Some(k)], moved + [d];
    forall j, e | 0 <= j < k + 1 && 0 <= e < moved'[j]
      ensures OccupiedBefore(table', Probe(Home(entries[j].nsap), e), j)
    {
      assert OccupiedBefore(table, Probe(Home(entries[j].nsap), e), j);
    }
    forall j | 0 <= j < k + 1
      ensures table'[Probe(Home(entries[j].nsap), moved'[j])] == Some(j)
    {
      if j < k {
        assert table[Probe(Home(entries[j].nsap), moved[j])] == Some(j);
      }
    }
  }

  class Subscribers {
    /** SUB_Profile array; SUB_init counts the sections first, so some entries at the end may be blank. */
    var subproArray: seq<Profile>
    /** subproProfile.count: how many entries were filled in. */
    var count: nat
    /** subproArray is not NULL; after a failed SUB_init it is not either, and the index is not complete. */
    var initialized: bool
    const subHashIndex: array<Option<nat>>
    ghost var moved: seq<nat>

    constructor ()
      ensures !initialized && fresh(subHashIndex) && subHashIndex.Length == NSAP_HASH_SIZE
    {
      subproArray, count, initialized, moved := [], 0, false, [];
      subHashIndex := new Option<nat>[NSAP_HASH_SIZE](_ => None);
    }

    ghost predicate Counted()
      reads this
    {
      count <= |subproArray|
    }

    ghost predicate Valid()
      reads this, subHashIndex
    {
      && subHashIndex.Length == NSAP_HASH_SIZE
      && Counted()
      && (initialized ==> Placed(subHashIndex[..], subproArray, moved, |subproArray|))
    }

    /** The indexing half of SUB_init: it succeeds exactly when the entries fit in the table. */
    method Init(entries: seq<Profile>, filled: nat) returns (ok: bool)
      requires subHashIndex.Length == NSAP_HASH_SIZE
      requires filled <= |entries|
      modifies this, subHashIndex
      ensures ok <==> |entries| <= NSAP_HASH_SIZE
      ensures ok ==> Valid() && initialized
      ensures subproArray == entries && count == filled
    {
      forall s | 0 <= s < subHashIndex.Length { subHashIndex[s] := None; }
      subproArray, count, moved, initialized := entries, filled, [], true;
      for index := 0 to |entries|
        invariant subproArray == entries && count == filled && initialized
        invariant index <= NSAP_HASH_SIZE
        invariant Placed(subHashIndex[..], entries, moved, index)
      {
        ok := Place(index);
        if !ok { return; }
      }
      ok := true;
    }

    /** One turn of the indexing loop: probe on from the home slot to an empty one. */
    method Place(index: nat) returns (ok: bool)
      requires index < |subproArray| && index <= NSAP_HASH_SIZE
      requires subHashIndex.Length == NSAP_HASH_SIZE
      requires Placed(subHashIndex[..], subproArray, moved, index)
      modifies subHashIndex, this`moved
      ensures ok <==> index < NSAP_HASH_SIZE
      ensures ok ==> Placed(subHashIndex[..], subproArray, moved, index + 1)
    {
      var nsap := subproArray[index].nsap;
      var hash: nat := (nsap.a2 * 0x100 + nsap.a3) % NSAP_HASH_SIZE;
      ghost var table, oldMoved := subHashIndex[..], moved;
      var diff: nat := 0;
      if index == NSAP_HASH_SIZE {
        forall s | 0 <= s < NSAP_HASH_SIZE ensures table[s].Some? {
          FullTable(table, subproArray, moved, s);
        }
      }
      while subHashIndex[hash].Some?
        invariant hash < NSAP_HASH_SIZE && diff <= NSAP_HASH_SIZE + 1
        invariant subHashIndex[..] == table && moved == oldMoved
        invariant index < NSAP_HASH_SIZE ==> Probing(table, Home(nsap), index, diff, hash)
        decreases NSAP_HASH_SIZE + 1 - diff
      {
        assert table[hash].Some?;
        if index < NSAP_HASH_SIZE {
          ProbeOn(table, subproArray, moved, index, Home(nsap), diff, hash);
        }
        diff := diff + 1;
        if diff - 1 > NSAP_HASH_SIZE {
          return false;
        }
        hash := (hash + 1) % NSAP_HASH_SIZE;
      }
      assert table[hash].None?;
      PlaceNext(table, subproArray, moved, index, diff);
      subHashIndex[hash] := Some(index);
      moved := moved + [diff];
      ok := true;
      assert subHashIndex[..] == table[hash := Some(index)];
    }

    /**
     SUB_getEntry. The answer is the first entry that fits. A search by NSAP alone, which is all that
     needs the index, goes through it with at most `count` probes; it may differ from a search of the
     whole array only when the first fitting entry is one of the blank ones.
     */
    method GetEntry(q: Query) returns (r: Option<nat>)
      requires Counted() && (q.subscriber.None? && q.nsap.Some? ==> Valid())
      ensures !initialized ==> r.None?
      ensures initialized && q.subscriber.Some? ==> r == First(subproArray[..count], q)
      ensures initialized && q.subscriber.None? ==>
                var first := First(subproArray, q);
                if first.Some? && first.value >= count then r in {None, first} else r == first
    {
      if !initialized { return None; }
      if q.subscriber.Some? {
        r := Scan(q);
      } else if q.nsap.Some? {
        r := Lookup(q.nsap.value);
      } else {
        r := None;
      }
    }

    /** The linear searches by subscriber id, and by subscriber id and NSAP. */
    method Scan(q: Query) returns (r: Option<nat>)
      requires Counted() && q.subscriber.Some?
      ensures r == First(subproArray[..count], q)
    {
      var i := 0;
      while i < count
        invariant i <= count
        invariant forall j :: 0 <= j < i ==> !Fits(subproArray[j], q)
      {
        if AuaEqual(subproArray[i].address, q.subscriber.value) {
          if q.nsap.None? || subproArray[i].nsap == q.nsap.value {
            break;
          }
        }
        i := i + 1;
      }
      r := if i < count then Some(i) else None;
      assert r.Some? ==> subproArray[..count][i] == subproArray[i] && Fits(subproArray[i], q);
    }

    /** The search by NSAP alone. */
    method Lookup(nsap: Nsap) returns (r: Option<nat>)
      requires Valid() && initialized
      ensures var first := First(subproArray, Query(None, Some(nsap)));
              if first.Some? && first.value >= count then r in {None, first} else r == first
    {
      ghost var table := subHashIndex[..];
      var hash: nat := (nsap.a2 * 0x100 + nsap.a3) % NSAP_HASH_SIZE;
      var i: nat := 0;
      while i < count
        invariant i <= count
        invariant OnTheWay(subproArray, moved, nsap, i, hash)
      {
        ProbeMeets(table, subproArray, moved, nsap, i, hash);
        StepsAreFew(table, subproArray, moved, nsap, i, hash);
        assert table[hash] == subHashIndex[hash];
        if subHashIndex[hash].None? {
          return None;
        }
        if subproArray[subHashIndex[hash].value].nsap == nsap {
          return subHashIndex[hash];
        }
        hash := (hash + 1) % NSAP_HASH_SIZE;
        i := i + 1;
      }
      StepsAreFew(table, subproArray, moved, nsap, i, hash);
      return None;
    }
  }
}
