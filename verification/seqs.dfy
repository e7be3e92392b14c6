/** Sequence helpers shared by the repositories: the stores of the system are
    sequences of records and every query is a filter over one of them. */
module Seqs {
  import opened Wrappers

  /** The elements of `s` satisfying `p`, in their original order. */
  function Filter<T(!new)>(s: seq<T>, p: T -> bool): (r: seq<T>)
    ensures |r| <= |s|
    ensures forall x :: x in r <==> x in s && p(x)
    ensures forall i :: 0 <= i < |r| ==> p(r[i])
    decreases |s|
  {
    if |s| == 0 then []
    else if p(s[0]) then [s[0]] + Filter(s[1..], p)
    else Filter(s[1..], p)
  }

  /** Filtering keeps every element's multiplicity when all elements pass. */
  lemma {:induction false} FilterAll<T(!new)>(s: seq<T>, p: T -> bool)
    requires forall x :: x in s ==> p(x)
    ensures Filter(s, p) == s
    decreases |s|
  {
    if |s| > 0 {
      assert s[0] in s;
      assert forall x :: x in s[1..] ==> x in s;
      FilterAll(s[1..], p);
      assert s == [s[0]] + s[1..];
    }
  }

  /** A sequence without members is empty. */
  lemma NoMemberEmpty<T>(s: seq<T>)
    ensures (forall x :: x !in s) ==> s == []
  {
    if s != [] {
      assert s[0] in s;
    }
  }

  /** Filtering keeps nothing when no element passes. */
  lemma {:induction false} FilterNone<T(!new)>(s: seq<T>, p: T -> bool)
    requires forall x :: x in s ==> !p(x)
    ensures Filter(s, p) == []
    decreases |s|
  {
    if |s| > 0 {
      assert s[0] in s;
      assert forall x :: x in s[1..] ==> x in s;
      FilterNone(s[1..], p);
    }
  }

  /** Two tests that agree on every element keep the same elements. */
  lemma {:induction false} FilterCongruent<T(!new)>(s: seq<T>, p: T -> bool, q: T -> bool)
    requires forall x :: x in s ==> p(x) == q(x)
    ensures Filter(s, p) == Filter(s, q)
    decreases |s|
  {
    if |s| > 0 {
      assert s[0] in s;
      assert forall x :: x in s[1..] ==> x in s;
      FilterCongruent(s[1..], p, q);
    }
  }

  /** Replacing an element by one the test treats alike keeps the number
      of elements that pass. */
  lemma {:induction false} FilterUpdateLength<T(!new)>(s: seq<T>, i: nat, x: T, p: T -> bool)
    requires i < |s| && p(x) == p(s[i])
    ensures |Filter(s[i := x], p)| == |Filter(s, p)|
    decreases |s|
  {
    if i == 0 {
      assert s[i := x][1..] == s[1..];
    } else {
      assert s[i := x][1..] == s[1..][i - 1 := x];
      FilterUpdateLength(s[1..], i - 1, x, p);
    }
  }

  /** Filtering a concatenation filters each part. */
  lemma {:induction false} FilterAppend<T(!new)>(a: seq<T>, b: seq<T>, p: T -> bool)
    ensures Filter(a + b, p) == Filter(a, p) + Filter(b, p)
    decreases |a|
  {
    if |a| == 0 {
      assert a + b == b;
    } else {
      assert (a + b)[0] == a[0];
      assert (a + b)[1..] == a[1..] + b;
      FilterAppend(a[1..], b, p);
    }
  }

  /** Number of elements of `s` satisfying `p`. */
  function Count<T>(s: seq<T>, p: T -> bool): nat
    decreases |s|
  {
    if |s| == 0 then 0
    else (if p(s[0]) then 1 else 0) + Count(s[1..], p)
  }

  lemma {:induction false} CountIsFilterLength<T(!new)>(s: seq<T>, p: T -> bool)
    ensures Count(s, p) == |Filter(s, p)|
    decreases |s|
  {
    if |s| > 0 {
      CountIsFilterLength(s[1..], p);
    }
  }

  /** Integer sum of `f` over `s`. */
  function SumOf<T>(s: seq<T>, f: T -> int): int
    decreases |s|
  {
    if |s| == 0 then 0 else f(s[0]) + SumOf(s[1..], f)
  }

  lemma {:induction false} SumOfAppend<T>(a: seq<T>, b: seq<T>, f: T -> int)
    ensures SumOf(a + b, f) == SumOf(a, f) + SumOf(b, f)
    decreases |a|
  {
    if |a| == 0 {
      assert a + b == b;
    } else {
      assert (a + b)[1..] == a[1..] + b;
      SumOfAppend(a[1..], b, f);
    }
  }

  /** Sequence `s` with element `i` replaced by `x`. */
  function Replace<T>(s: seq<T>, i: nat, x: T): (r: seq<T>)
    requires i < |s|
    ensures |r| == |s| && r[i] == x
    ensures forall j :: 0 <= j < |s| && j != i ==> r[j] == s[j]
  {
    s[i := x]
  }

  /** Applies `f` to every element, keeping length and order. */
  function Map<T, U>(s: seq<T>, f: T -> U): (r: seq<U>)
    ensures |r| == |s|
    ensures forall i :: 0 <= i < |s| ==> r[i] == f(s[i])
    decreases |s|
  {
    if |s| == 0 then [] else [f(s[0])] + Map(s[1..], f)
  }

  /** The elements of `s` are pairwise distinct. */
  predicate Distinct<T(==)>(s: seq<T>) {
    forall i, j :: 0 <= i < j < |s| ==> s[i] != s[j]
  }

  /** A filter keeps at most the copies the sequence has. */
  lemma {:induction false} FilterSubMultiset<T(!new)>(s: seq<T>, p: T -> bool)
    ensures multiset(Filter(s, p)) <= multiset(s)
    decreases |s|
  {
    if |s| > 0 {
      FilterSubMultiset(s[1..], p);
      assert s == [s[0]] + s[1..];
    }
  }

  /** A sequence without repeats holds each value at most once. */
  lemma {:induction false} DistinctAtMostOnce<T>(t: seq<T>, x: T)
    requires Distinct(t)
    ensures multiset(t)[x] <= 1
    decreases |t|
  {
    if |t| > 0 {
      var rest := t[1..];
      assert Distinct(rest) by {
        forall i, j | 0 <= i < j < |rest| ensures rest[i] != rest[j] {
          assert rest[i] == t[i + 1] && rest[j] == t[j + 1];
        }
      }
      DistinctAtMostOnce(rest, x);
      assert t == [t[0]] + rest;
      if x == t[0] {
        forall y | y in rest ensures y != t[0] {
          var k :| 0 <= k < |rest| && rest[k] == y;
          assert t[k + 1] == y;
        }
      }
    }
  }

  /** A value at two positions is held at least twice. */
  lemma RepeatCountsTwice<T>(s: seq<T>, i: nat, j: nat)
    requires i < j < |s|
    ensures s[i] == s[j] ==> multiset(s)[s[j]] >= 2
  {
    assert s == s[..j] + s[j..];
    assert s[..j][i] == s[i];
    assert s[j..][0] == s[j];
  }

  /** Taking no more copies than a repeat-free sequence holds keeps a
      sequence repeat-free. */
  lemma DistinctSubMultiset<T>(s: seq<T>, t: seq<T>)
    requires Distinct(t) && multiset(s) <= multiset(t)
    ensures Distinct(s)
  {
    forall i, j | 0 <= i < j < |s| ensures s[i] != s[j] {
      RepeatCountsTwice(s, i, j);
      DistinctAtMostOnce(t, s[j]);
    }
  }

  /** The set of elements of `s`. */
  function Elements<T>(s: seq<T>): set<T> {
    set x | x in s
  }

  /** A sequence has as many distinct elements as positions exactly when no
      element repeats. */
  lemma {:induction false} DistinctIffNoLoss<T>(s: seq<T>)
    ensures |Elements(s)| <= |s|
    ensures Distinct(s) <==> |Elements(s)| == |s|
    decreases |s|
  {
    if |s| > 0 {
      var t := s[1..];
      DistinctIffNoLoss(t);
      assert Elements(s) == {s[0]} + Elements(t);
      if s[0] in t {
        assert Elements(s) == Elements(t);
        var k :| 0 <= k < |t| && t[k] == s[0];
        assert s[0] == s[k + 1];
      } else {
        assert Distinct(s) <==> Distinct(t);
      }
    }
  }

  /** A subset is no larger than its superset. */
  lemma SubsetSize<T>(a: set<T>, b: set<T>)
    requires a <= b
    ensures |a| <= |b|
  {
    var d := b - a;
    assert b == a + d && a * d == {};
  }

  /** A subset with as many elements as its superset is the whole set. */
  lemma SubsetOfSameSize<T>(a: set<T>, b: set<T>)
    requires a <= b && |a| == |b|
    ensures a == b
  {
    assert |b - a| == |b| - |a|;
  }

  /** Position of the first element satisfying `p`. */
  function IndexWhere<T>(s: seq<T>, p: T -> bool): (r: Option<nat>)
    ensures r.Some? ==> r.value < |s| && p(s[r.value])
    ensures r.Some? ==> forall k :: 0 <= k < r.value ==> !p(s[k])
    ensures r.None? <==> forall k :: 0 <= k < |s| ==> !p(s[k])
    decreases |s|
  {
    if |s| == 0 then None
    else if p(s[0]) then Some(0)
    else match IndexWhere(s[1..], p)
      case None => None
      case Some(i) => Some(i + 1)
  }
}
