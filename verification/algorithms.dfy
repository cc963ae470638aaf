/** The free-standing helpers of ft_algorithm.hpp (and their copies in
    algorithm.hpp): `equal`, `lexicographical_compare`, `min`, `swap`, and
    `pair` with `make_pair` and its six comparison operators.

    Iterator ranges become sequences. Element comparisons use the element
    type's own `<` and `==`; the model instantiates the element type with
    `int`, as the containers of this project do. */
module Algorithms {

  /* ---------------------------------------------------------------------
     equal
     --------------------------------------------------------------------- */

  /** `equal(lit, lend, rit, rend)`: walks both ranges in step and answers
      whether they have the same length and agree position by position. */
  method Equal<T(==)>(a: seq<T>, b: seq<T>) returns (r: bool)
    ensures r <==> a == b
  {
    var i := 0;
    while i < |a|
      invariant i <= |a| && i <= |b|
      invariant a[..i] == b[..i]
    {
      if i == |b| || b[i] != a[i] {
        assert i == |b| ==> |a| != |b|;
        assert i < |b| ==> a[i] != b[i];
        return false;
      }
      i := i + 1;
    }
    assert a == a[..i];
    r := i == |b|;
    assert r ==> b == b[..i];
  }

  /* ---------------------------------------------------------------------
     lexicographical_compare
     --------------------------------------------------------------------- */

  /** The strict lexicographic order, in the branch order of the loop: an
      exhausted first range is less exactly when the second is not exhausted;
      otherwise an exhausted second range, or a smaller head in the second
      range, answers false; a smaller head in the first answers true. */
  function LexLess(a: seq<int>, b: seq<int>): bool
  {
    if |a| == 0 then |b| != 0
    else if |b| == 0 || b[0] < a[0] then false
    else if a[0] < b[0] then true
    else LexLess(a[1..], b[1..])
  }

  /** `lexicographical_compare(first1, last1, first2, last2)`, the iterator
      loop over both ranges. */
  method LexicographicalCompare(a: seq<int>, b: seq<int>) returns (r: bool)
    ensures r == LexLess(a, b)
  {
    var i := 0;
    while i < |a|
      invariant i <= |a| && i <= |b|
      invariant LexLess(a, b) == LexLess(a[i..], b[i..])
    {
      if i == |b| || b[i] < a[i] {
        return false;
      } else if a[i] < b[i] {
        return true;
      }
      assert a[i..][1..] == a[i + 1..] && b[i..][1..] == b[i + 1..];
      i := i + 1;
    }
    return i != |b|;
  }

  /** k is the first position at which a and b differ. */
  ghost predicate FirstMismatch(a: seq<int>, b: seq<int>, k: int)
  {
    0 <= k < |a| && k < |b| && a[..k] == b[..k] && a[k] != b[k]
  }

  /** The first mismatch decides the comparison. */
  lemma {:induction false} LexFirstMismatch(a: seq<int>, b: seq<int>, k: int)
    requires FirstMismatch(a, b, k)
    ensures LexLess(a, b) <==> a[k] < b[k]
  {
    if k > 0 {
      assert a[0] == a[..k][0] == b[..k][0] == b[0];
      assert a[1..][..k - 1] == a[..k][1..] && b[1..][..k - 1] == b[..k][1..];
      LexFirstMismatch(a[1..], b[1..], k - 1);
    }
  }

  /** A proper prefix is less than the longer sequence, and a sequence never
      compares less than one of its own prefixes. */
  lemma {:induction false} LexPrefix(a: seq<int>, b: seq<int>)
    requires |a| <= |b| && a == b[..|a|]
    ensures LexLess(a, b) <==> |a| < |b|
    ensures !LexLess(b, a)
  {
    if |a| > 0 {
      assert a[0] == b[0];
      assert a[1..] == b[1..][..|a| - 1];
      LexPrefix(a[1..], b[1..]);
    }
  }

  /** Two sequences either agree on their common length or have a first
      mismatch. */
  lemma {:induction false} PrefixOrMismatch(a: seq<int>, b: seq<int>)
    ensures (|a| <= |b| && a == b[..|a|]) || (|b| <= |a| && b == a[..|b|])
            || exists k :: FirstMismatch(a, b, k)
  {
    if |a| > 0 && |b| > 0 {
      if a[0] != b[0] {
        assert FirstMismatch(a, b, 0);
      } else {
        PrefixOrMismatch(a[1..], b[1..]);
        if exists k :: FirstMismatch(a[1..], b[1..], k) {
          var k :| FirstMismatch(a[1..], b[1..], k);
          assert a[..k + 1] == [a[0]] + a[1..][..k];
          assert b[..k + 1] == [b[0]] + b[1..][..k];
          assert FirstMismatch(a, b, k + 1);
        } else if |a| <= |b| {
          assert a == [a[0]] + a[1..] && b[..|a|] == [b[0]] + b[1..][..|a| - 1];
        } else {
          assert b == [b[0]] + b[1..] && a[..|b|] == [a[0]] + a[1..][..|b| - 1];
        }
      }
    }
  }

  /** Irreflexive: both ranges run out together, so the final test fails. */
  lemma LexIrreflexive(a: seq<int>)
    ensures !LexLess(a, a)
  {
    LexPrefix(a, a);
  }

  /** Asymmetric and total on distinct sequences: exactly one of a < b,
      a == b, b < a holds. */
  lemma LexTrichotomy(a: seq<int>, b: seq<int>)
    ensures a == b ==> !LexLess(a, b) && !LexLess(b, a)
    ensures a != b ==> (LexLess(a, b) <==> !LexLess(b, a))
  {
    PrefixOrMismatch(a, b);
    if exists k :: FirstMismatch(a, b, k) {
      var k :| FirstMismatch(a, b, k);
      LexFirstMismatch(a, b, k);
      assert FirstMismatch(b, a, k);
      LexFirstMismatch(b, a, k);
    } else if |a| <= |b| && a == b[..|a|] {
      LexPrefix(a, b);
    } else {
      LexPrefix(b, a);
    }
  }

  /** Transitive. */
  lemma {:induction false} LexTransitive(a: seq<int>, b: seq<int>, c: seq<int>)
    requires LexLess(a, b) && LexLess(b, c)
    ensures LexLess(a, c)
  {
    if |a| > 0 {
      assert |b| > 0 && |c| > 0;
      if a[0] == b[0] && b[0] == c[0] {
        LexTransitive(a[1..], b[1..], c[1..]);
      }
    }
  }

  /* ---------------------------------------------------------------------
     min and swap
     --------------------------------------------------------------------- */

  /** `min(a, b)`: `a` when `a < b`, otherwise `b` (so ties yield `b`, which
      cannot be told apart from `a` for integers). */
  function Min(a: int, b: int): (r: int)
    ensures r <= a && r <= b
    ensures r == a || r == b
  {
    if a < b then a else b
  }

  /** A mutable location: what a `T&` argument designates. */
  class Cell<T> {
    var value: T

    constructor (v: T)
      ensures value == v
    {
      value := v;
    }
  }

  /** `swap(a, b)`: copy `a` aside, assign `b` to `a`, then the copy to `b`.
      When both designate the same location it is left as it was. */
  method Swap<T>(a: Cell<T>, b: Cell<T>)
    modifies a, b
    ensures a.value == old(b.value) && b.value == old(a.value)
  {
    var tmp := a.value;
    a.value := b.value;
    b.value := tmp;
  }

  /* ---------------------------------------------------------------------
     pair
     --------------------------------------------------------------------- */

  datatype Pair<T1, T2> = Pair(first: T1, second: T2)

  /** `make_pair(t, u)`. */
  function MakePair<T1, T2>(t: T1, u: T2): (p: Pair<T1, T2>)
    ensures p.first == t && p.second == u
  {
    Pair(t, u)
  }

  /** `operator==` as written: only the `first` members are compared. */
  predicate PairEq<T1(==), T2>(lhs: Pair<T1, T2>, rhs: Pair<T1, T2>)
  {
    lhs.first == rhs.first
  }

  /** `operator!=`: the negation of `operator==`, hence also blind to
      `second`. */
  function PairNe<T1(==), T2>(lhs: Pair<T1, T2>, rhs: Pair<T1, T2>): (r: bool)
    ensures r <==> lhs.first != rhs.first
  {
    !PairEq(lhs, rhs)
  }

  /** `operator<`: the firsts decide when they differ, the seconds otherwise.
      This is the lexicographic order on the two members. */
  function PairLt(lhs: Pair<int, int>, rhs: Pair<int, int>): (r: bool)
    ensures r <==> LexLess([lhs.first, lhs.second], [rhs.first, rhs.second])
  {
    assert [lhs.first, lhs.second][1..] == [lhs.second];
    assert [rhs.first, rhs.second][1..] == [rhs.second];
    assert [lhs.second][1..] == [] == [rhs.second][1..];
    assert !LexLess([], []);
    assert LexLess([lhs.second], [rhs.second]) <==> lhs.second < rhs.second;
    if lhs.first != rhs.first then lhs.first < rhs.first else lhs.second < rhs.second
  }

  /** `operator<=` is `!(rhs < lhs)`: less than, or identical in both
      members. */
  function PairLe(lhs: Pair<int, int>, rhs: Pair<int, int>): (r: bool)
    ensures r <==> PairLt(lhs, rhs) || lhs == rhs
  {
    PairTrichotomy(lhs, rhs);
    !PairLt(rhs, lhs)
  }

  /** `operator>` is `rhs < lhs`: neither less than nor identical. */
  function PairGt(lhs: Pair<int, int>, rhs: Pair<int, int>): (r: bool)
    ensures r <==> !PairLt(lhs, rhs) && lhs != rhs
  {
    PairTrichotomy(lhs, rhs);
    PairLt(rhs, lhs)
  }

  /** `operator>=` is `!(lhs < rhs)`: greater than, or identical. */
  function PairGe(lhs: Pair<int, int>, rhs: Pair<int, int>): (r: bool)
    ensures r <==> PairGt(lhs, rhs) || lhs == rhs
  {
    PairTrichotomy(lhs, rhs);
    !PairLt(lhs, rhs)
  }

  /** Exactly one of lhs < rhs, lhs and rhs identical, and rhs < lhs
      holds: `<` is a strict total order on pairs. */
  lemma PairTrichotomy(lhs: Pair<int, int>, rhs: Pair<int, int>)
    ensures lhs == rhs ==> !PairLt(lhs, rhs) && !PairLt(rhs, lhs)
    ensures lhs != rhs ==> (PairLt(lhs, rhs) <==> !PairLt(rhs, lhs))
  {
    LexTrichotomy([lhs.first, lhs.second], [rhs.first, rhs.second]);
    assert lhs != rhs ==> [lhs.first, lhs.second] != [rhs.first, rhs.second];
  }

  /** Between pairs that `==` tells apart, `<` is decided by the firsts
      alone, which is what lets a tree keyed by `==` and `<` on pairs behave
      as one keyed by `first`. */
  lemma PairOrderByKey(lhs: Pair<int, int>, rhs: Pair<int, int>)
    requires !PairEq(lhs, rhs)
    ensures PairLt(lhs, rhs) <==> lhs.first < rhs.first
  {
  }

  /** As written, `==` and `<` disagree: (1, 1) == (1, 2) holds and so does
      (1, 1) < (1, 2), and (1, 2) <= (1, 1) fails although the two compare
      equal. */
  lemma PairEqIgnoresSecond()
    ensures PairEq(Pair(1, 1), Pair(1, 2)) && PairLt(Pair(1, 1), Pair(1, 2))
    ensures PairEq(Pair(1, 2), Pair(1, 1)) && !PairLe(Pair(1, 2), Pair(1, 1))
    ensures Pair(1, 1) != Pair(1, 2)
  {
  }
}
