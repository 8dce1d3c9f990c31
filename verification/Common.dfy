/** Datatypes and sequence facts shared by the modules of this project. */
module Common {

  datatype Option<+T> = None | Some(value: T)

  /** One octet of a protocol data unit. */
  type Octet = x: int | 0 <= x < 0x100

  type Bytes = seq<Octet>

  /** The values of `OS_Uint32`. */
  type Uint32 = x: int | 0 <= x < 0x1_0000_0000

  /** An N_SapAddr: the code compares and hashes its first four octets. */
  datatype Nsap = Nsap(a0: Octet, a1: Octet, a2: Octet, a3: Octet)

  /** The parts of a message put one after the other. */
  function Join(parts: seq<Bytes>): Bytes {
    if parts == [] then [] else parts[0] + Join(parts[1..])
  }

  lemma {:induction false} JoinAppend(parts: seq<Bytes>, last: Bytes)
    ensures Join(parts + [last]) == Join(parts) + last
  {
    if parts == [] {
      assert parts + [last] == [last];
      assert Join([last]) == last + Join([]);
    } else {
      assert (parts + [last])[1..] == parts[1..] + [last];
      JoinAppend(parts[1..], last);
    }
  }

  /** An injective sequence of naturals below `bound` is no longer than `bound`. */
  lemma {:induction false} Pigeonhole(s: seq<nat>, bound: nat)
    requires forall i :: 0 <= i < |s| ==> s[i] < bound
    requires forall i, j :: 0 <= i < j < |s| ==> s[i] != s[j]
    ensures |s| <= bound
  {
    if bound == 0 {
      assert multiset(s) == multiset{} by {
        forall x ensures x !in s { }
      }
      assert |multiset(s)| == |s|;
    } else if exists i :: 0 <= i < |s| && s[i] == bound - 1 {
      var i :| 0 <= i < |s| && s[i] == bound - 1;
      Pigeonhole(s[..i] + s[i + 1..], bound - 1);
    } else {
      Pigeonhole(s, bound - 1);
    }
  }

  /** When as many distinct naturals below `bound` as there are were listed, all of them were. */
  lemma PigeonholeFull(s: seq<nat>, bound: nat, x: nat)
    requires forall i :: 0 <= i < |s| ==> s[i] < bound
    requires forall i, j :: 0 <= i < j < |s| ==> s[i] != s[j]
    requires |s| == bound && x < bound
    ensures x in s
  {
    if x !in s {
      Pigeonhole(s + [x], bound);
    }
  }
}
