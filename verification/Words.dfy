/**
 Unsigned machine words as sequences of bits, least significant first, with the C operators
 that segment.c applies to its masks. Value gives a word its number; the lemmas MinusOneValue
 and GreaterValue check subtraction and comparison against it.
 */
module Words {

  const WIDTH: nat := 32

  type Word = seq<bool>

  /** The number a word stands for. */
  function Value(w: Word): nat {
    if w == [] then 0 else (if w[0] then 1 else 0) + 2 * Value(w[1..])
  }

  function Pow2(n: nat): (p: nat)
    ensures p > 0
  {
    if n == 0 then 1 else 2 * Pow2(n - 1)
  }

  /** `1 << n`, for a result of `width` bits; a count beyond the width shifts the bit out. */
  function One(width: nat, n: nat): (w: Word)
    ensures |w| == width
  {
    seq(width, i => i == n)
  }

  function Or(a: Word, b: Word): (w: Word)
    requires |a| == |b|
    ensures |w| == |a|
  {
    seq(|a|, i requires 0 <= i < |a| => a[i] || b[i])
  }

  function And(a: Word, b: Word): (w: Word)
    requires |a| == |b|
    ensures |w| == |a|
  {
    seq(|a|, i requires 0 <= i < |a| => a[i] && b[i])
  }

  predicate IsZero(w: Word) {
    forall i :: 0 <= i < |w| ==> !w[i]
  }

  /** `w - 1`, borrowing from bit to bit and wrapping around at zero. */
  function MinusOne(w: Word): (d: Word)
    ensures |d| == |w|
  {
    if w == [] then []
    else if w[0] then [false] + w[1..]
    else [true] + MinusOne(w[1..])
  }

  /** `a > b`, decided by the most significant bit in which they differ. */
  predicate Greater(a: Word, b: Word)
    requires |a| == |b|
  {
    a != [] &&
    var n := |a| - 1;
    if a[n] != b[n] then a[n] else Greater(a[..n], b[..n])
  }

  /** The positions of the bits that are set. */
  function Members(w: Word): set<nat> {
    set i: nat | i < |w| && w[i]
  }

  /** The numbers below `n`. */
  function Below(n: nat): (s: set<nat>)
    ensures forall i: nat :: i in s <==> i < n
  {
    Members(seq(n, _ => true))
  }

  lemma {:induction false} BelowSize(n: nat)
    ensures |Below(n)| == n
  {
    if n == 0 {
      assert Below(0) == {};
    } else {
      BelowSize(n - 1);
      assert Below(n) == Below(n - 1) + {n - 1};
    }
  }

  // ---------- the operators against the numbers ----------

  lemma {:induction false} ValueBound(w: Word)
    ensures Value(w) < Pow2(|w|)
  {
    if w != [] { ValueBound(w[1..]); }
  }

  lemma {:induction false} MinusOneValue(w: Word)
    ensures Value(MinusOne(w)) == if Value(w) > 0 then Value(w) - 1 else Pow2(|w|) - 1
  {
    if w != [] {
      if w[0] {
        assert ([false] + w[1..])[1..] == w[1..];
      } else {
        MinusOneValue(w[1..]);
        assert ([true] + MinusOne(w[1..]))[1..] == MinusOne(w[1..]);
      }
    }
  }

  lemma {:induction false} ValueOfLast(w: Word)
    requires w != []
    ensures Value(w) == Value(w[..|w| - 1]) + if w[|w| - 1] then Pow2(|w| - 1) else 0
  {
    if |w| == 1 {
      assert w[1..] == [] && w[..0] == [];
    } else {
      ValueOfLast(w[1..]);
      assert w[1..][..|w| - 2] == w[..|w| - 1][1..];
    }
  }

  lemma {:induction false} GreaterValue(a: Word, b: Word)
    requires |a| == |b|
    ensures Greater(a, b) <==> Value(a) > Value(b)
  {
    if a != [] {
      var n := |a| - 1;
      GreaterValue(a[..n], b[..n]);
      ValueOfLast(a);
      ValueOfLast(b);
      ValueBound(a[..n]);
      ValueBound(b[..n]);
    }
  }

  lemma {:induction false} OneValue(width: nat, n: nat)
    ensures Value(One(width, n)) == if n < width then Pow2(n) else 0
  {
    if width > 0 {
      var w := One(width, n);
      if n == 0 {
        assert w[1..] == One(width - 1, width - 1);
        OneValue(width - 1, width - 1);
      } else {
        assert w[1..] == One(width - 1, n - 1);
        OneValue(width - 1, n - 1);
      }
    }
  }

  // ---------- the operators as operations on sets ----------

  /** `mask |= 1 << n` adds exactly n. */
  lemma OrOneMembers(w: Word, n: nat)
    requires n < |w|
    ensures Members(Or(w, One(|w|, n))) == Members(w) + {n}
  {
  }

  /** `(mask & (1 << n)) != 0` asks whether n is a member. */
  lemma AndOneMembers(w: Word, n: nat)
    requires n < |w|
    ensures !IsZero(And(w, One(|w|, n))) <==> n in Members(w)
  {
    assert And(w, One(|w|, n))[n] == w[n];
  }

  /** `(1 << n) - 1` has the members below n; when the bit is shifted out, all of them. */
  lemma {:induction false} BelowMembers(width: nat, n: nat)
    ensures Members(MinusOne(One(width, n))) == Below(if n < width then n else width)
  {
    forall i: nat | i < width
      ensures MinusOne(One(width, n))[i] <==> i < n
    {
      MinusOneBit(width, n, i);
    }
  }

  lemma {:induction false} MinusOneBit(width: nat, n: nat, i: nat)
    requires i < width
    ensures MinusOne(One(width, n))[i] <==> i < n
  {
    var w := One(width, n);
    if n == 0 {
      assert w[0];
    } else {
      assert w[1..] == One(width - 1, n - 1);
      if i > 0 {
        MinusOneBit(width - 1, n - 1, i - 1);
      }
    }
  }

  lemma {:induction false} ZeroIsLeast(a: Word, b: Word)
    requires |a| == |b| && IsZero(a)
    ensures !Greater(a, b)
  {
    if a != [] {
      ZeroIsLeast(a[..|a| - 1], b[..|a| - 1]);
    }
  }

  /** `(1 << t) > mask` asks whether every member is below t. */
  lemma {:induction false} OneGreater(t: nat, w: Word)
    requires t < |w|
    ensures Greater(One(|w|, t), w) <==> forall i :: i in Members(w) ==> i < t
    decreases |w|
  {
    var n := |w| - 1;
    var one := One(|w|, t);
    if t < n {
      assert one[..n] == One(n, t);
      OneGreater(t, w[..n]);
      if w[n] {
        assert n in Members(w);
      } else {
        assert Members(w) == Members(w[..n]);
      }
    } else if w[n] {
      assert n in Members(w);
      assert IsZero(one[..n]);
      ZeroIsLeast(one[..n], w[..n]);
    }
  }

  /** Words of one width are equal exactly when they have the same members. */
  lemma SameMembers(a: Word, b: Word)
    requires |a| == |b|
    ensures a == b <==> Members(a) == Members(b)
  {
    if Members(a) == Members(b) {
      forall i | 0 <= i < |a| ensures a[i] == b[i] {
        assert i in Members(a) <==> i in Members(b);
      }
    }
  }
}
