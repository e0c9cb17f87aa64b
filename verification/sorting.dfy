/** Turning a finite set into a sorted sequence. The source sorts the keys of
    a JSON object (`Object.keys(...).sort(...)`) and the entries of a
    directory listing; both are sets of distinct values, so the sorted
    sequence is fully determined by the order. */
module Sorting {

  /** `less` is a strict total order on `T`. */
  ghost predicate StrictTotalOrder<T(!new)>(less: (T, T) -> bool) {
    && (forall a :: !less(a, a))
    && (forall a, b, c :: less(a, b) && less(b, c) ==> less(a, c))
    && (forall a, b :: a != b ==> less(a, b) || less(b, a))
  }

  /** Every element of `r` comes strictly before every later one. */
  ghost predicate StrictlySorted<T>(r: seq<T>, less: (T, T) -> bool) {
    forall i, j :: 0 <= i < j < |r| ==> less(r[i], r[j])
  }

  /** `m` is the least element of `s`. */
  predicate IsLeast<T>(m: T, s: set<T>, less: (T, T) -> bool) {
    m in s && forall x :: x in s && x != m ==> less(m, x)
  }

  lemma {:induction false} LeastExists<T(!new)>(s: set<T>, less: (T, T) -> bool)
    requires StrictTotalOrder(less)
    requires s != {}
    ensures exists m :: IsLeast(m, s, less)
    decreases |s|
  {
    var x :| x in s;
    if s != {x} {
      var rest := s - {x};
      LeastExists(rest, less);
      var m :| IsLeast(m, rest, less);
      if less(x, m) {
        forall y | y in s && y != x
          ensures less(x, y)
        {
          if y != m {
            assert less(m, y);
          }
        }
        assert IsLeast(x, s, less);
      } else {
        assert IsLeast(m, s, less);
      }
    } else {
      assert IsLeast(x, s, less);
    }
  }

  /** The least element of a non-empty set. */
  function Least<T(!new)>(s: set<T>, less: (T, T) -> bool): (m: T)
    requires StrictTotalOrder(less)
    requires s != {}
    ensures IsLeast(m, s, less)
  {
    LeastExists(s, less);
    var m :| IsLeast(m, s, less);
    m
  }

  /** The elements of `s` in increasing order of `less`. */
  function SortSet<T(!new)>(s: set<T>, less: (T, T) -> bool): (r: seq<T>)
    requires StrictTotalOrder(less)
    ensures |r| == |s|
    ensures forall x :: x in r <==> x in s
    ensures StrictlySorted(r, less)
    decreases |s|
  {
    if s == {} then []
    else
      var m := Least(s, less);
      [m] + SortSet(s - {m}, less)
  }

  /** A strictly sorted sequence holding exactly the elements of `s` is the
      result of `SortSet`: the order alone determines the sequence. */
  lemma {:induction false} SortedUnique<T(!new)>(s: set<T>, less: (T, T) -> bool, r: seq<T>)
    requires StrictTotalOrder(less)
    requires forall x :: x in r <==> x in s
    requires StrictlySorted(r, less)
    ensures r == SortSet(s, less)
    decreases |s|
  {
    if |r| == 0 {
      assert s == {} by {
        assert forall x :: x !in s;
      }
    } else {
      assert r[0] in s;
      var m := Least(s, less);
      assert m in r;
      var k :| 0 <= k < |r| && r[k] == m;
      assert r[0] in s;
      assert k == 0;
      forall x
        ensures x in r[1..] <==> x in s - {m}
      {
        if x in r[1..] {
          var k :| 1 <= k < |r| && r[k] == x;
          assert less(r[0], r[k]);
        }
        if x in s - {m} {
          var k :| 0 <= k < |r| && r[k] == x;
          assert k != 0;
          assert r[1..][k - 1] == x;
        }
      }
      SortedUnique(s - {m}, less, r[1..]);
      assert r == [m] + r[1..];
    }
  }

  /** Removing the last element of `s` and its copy at some index `j` of a
      permutation `t` leaves permutations of each other. */
  lemma PermutationRemoveLast<T>(s: seq<T>, t: seq<T>) returns (j: int)
    requires multiset(s) == multiset(t) && |s| > 0
    ensures 0 <= j < |t| && t[j] == s[|s| - 1]
    ensures t == t[..j] + [t[j]] + t[j + 1..]
    ensures multiset(s[..|s| - 1]) == multiset(t[..j] + t[j + 1..])
  {
    var x := s[|s| - 1];
    assert s == s[..|s| - 1] + [x];
    assert x in multiset(t);
    j :| 0 <= j < |t| && t[j] == x;
    assert t == t[..j] + [x] + t[j + 1..];
    calc {
      multiset(s[..|s| - 1]);
      multiset(s) - multiset{x};
      multiset(t) - multiset{x};
      multiset(t[..j]) + multiset(t[j + 1..]);
      multiset(t[..j] + t[j + 1..]);
    }
  }

  /** Applying a function elementwise to two permutations of each other
      gives permutations of each other. */
  lemma {:induction false} MapPermutation<A, B>(s: seq<A>, t: seq<A>, f: A -> B, fs: seq<B>, ft: seq<B>)
    requires multiset(s) == multiset(t)
    requires |fs| == |s| && forall i :: 0 <= i < |s| ==> fs[i] == f(s[i])
    requires |ft| == |t| && forall i :: 0 <= i < |t| ==> ft[i] == f(t[i])
    ensures multiset(fs) == multiset(ft)
    decreases |s|
  {
    if |s| == 0 {
      assert |t| == |multiset(t)| == 0;
    } else {
      var j := PermutationRemoveLast(s, t);
      var rest := t[..j] + t[j + 1..];
      var frest := ft[..j] + ft[j + 1..];
      assert forall i :: 0 <= i < |rest| ==> rest[i] == (if i < j then t[i] else t[i + 1]);
      MapPermutation(s[..|s| - 1], rest, f, fs[..|fs| - 1], frest);
      assert fs == fs[..|fs| - 1] + [fs[|fs| - 1]];
      assert ft == ft[..j] + [ft[j]] + ft[j + 1..];
    }
  }
}
