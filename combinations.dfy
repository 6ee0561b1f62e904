/** The index-combination enumerator that drives the Tuples deducer
    (`combinations` in solver.py). */
module Subsets {

  predicate Increasing(c: seq<int>) {
    forall i, j :: 0 <= i < j < |c| ==> c[i] < c[j]
  }

  predicate InRange(c: seq<int>, m: int, n: int) {
    forall i :: 0 <= i < |c| ==> m <= c[i] < n
  }

  /** Strict lexicographic order on integer lists. */
  predicate LexLess(a: seq<int>, b: seq<int>) {
    |b| > 0 && (|a| == 0 || a[0] < b[0] || (a[0] == b[0] && LexLess(a[1..], b[1..])))
  }

  /** Each list strictly precedes every later one. */
  predicate LexSorted(r: seq<seq<int>>) {
    forall i, j :: 0 <= i < j < |r| ==> LexLess(r[i], r[j])
  }

  function PrependAll(x: int, r: seq<seq<int>>): (p: seq<seq<int>>)
    ensures |p| == |r| && forall i :: 0 <= i < |r| ==> p[i] == [x] + r[i]
  {
    seq(|r|, i requires 0 <= i < |r| => [x] + r[i])
  }

  /** A strictly increasing list of k values from [m, n). */
  predicate IsCombination(c: seq<int>, k: int, m: int, n: int) {
    |c| == k && Increasing(c) && InRange(c, m, n)
  }

  lemma PrependCombination(c: seq<int>, k: int, m: int, n: int)
    requires IsCombination(c, k - 1, m + 1, n) && m < n
    ensures IsCombination([m] + c, k, m, n)
  {
    var d := [m] + c;
    forall i, j | 0 <= i < j < |d| ensures d[i] < d[j] {
      assert d[j] == c[j - 1];
      if i > 0 { assert d[i] == c[i - 1]; }
    }
  }

  /** `combinations(k, n, m)`, as the list it yields: first every list that
      starts with m (just [m] when k is 1, else m followed by each list of
      `combinations(k - 1, n, m + 1)`), then the lists of
      `combinations(k, n, m + 1)`, which is the rest of the generator's loop
      over its first element. */
  function Combinations(k: int, n: int, m: int): (r: seq<seq<int>>)
    ensures forall i :: 0 <= i < |r| ==> IsCombination(r[i], k, m, n)
    decreases n - m, 1
  {
    if m >= n then []
    else
      var first := Leading(k, n, m);
      var rest := Combinations(k, n, m + 1);
      assert forall i :: 0 <= i < |rest| ==> IsCombination(rest[i], k, m, n) by {
        forall i | 0 <= i < |rest| ensures IsCombination(rest[i], k, m, n) {
          assert IsCombination(rest[i], k, m + 1, n);
        }
      }
      first + rest
  }

  /** The lists that start with m: [m] itself when k is 1, else m in front
      of each list of `combinations(k - 1, n, m + 1)`. */
  function Leading(k: int, n: int, m: int): (r: seq<seq<int>>)
    requires m < n
    ensures forall i :: 0 <= i < |r| ==> IsCombination(r[i], k, m, n) && |r[i]| > 0 && r[i][0] == m
    decreases n - m, 0
  {
    if k == 1 then [[m]]
    else
      var sub := Combinations(k - 1, n, m + 1);
      var first := PrependAll(m, sub);
      assert forall i :: 0 <= i < |first| ==> IsCombination(first[i], k, m, n) by {
        forall i | 0 <= i < |first| ensures IsCombination(first[i], k, m, n) {
          PrependCombination(sub[i], k, m, n);
        }
      }
      first
  }

  /** Asking for fewer than one element yields nothing. */
  lemma {:induction false} CombinationsNonPositive(k: int, n: int, m: int)
    requires k < 1
    ensures Combinations(k, n, m) == []
    decreases n - m
  {
    if m < n {
      CombinationsNonPositive(k - 1, n, m + 1);
      CombinationsNonPositive(k, n, m + 1);
    }
  }

  lemma InConcat(c: seq<int>, a: seq<seq<int>>, b: seq<seq<int>>)
    requires c in a || c in b
    ensures c in a + b
  {
    if c in a {
      var i :| 0 <= i < |a| && a[i] == c;
      assert (a + b)[i] == c;
    } else {
      var i :| 0 <= i < |b| && b[i] == c;
      assert (a + b)[|a| + i] == c;
    }
  }

  /** Every strictly increasing list of k values from [m, n) is yielded. */
  lemma {:induction false} CombinationsComplete(k: int, n: int, m: int, c: seq<int>)
    requires |c| == k >= 1 && Increasing(c) && InRange(c, m, n)
    ensures c in Combinations(k, n, m)
    decreases n - m, 1
  {
    if c[0] == m {
      LeadingComplete(k, n, m, c);
      InConcat(c, Leading(k, n, m), Combinations(k, n, m + 1));
    } else {
      assert InRange(c, m + 1, n) by {
        forall i | 0 <= i < |c| ensures m + 1 <= c[i] < n {
          assert i == 0 || c[0] < c[i];
        }
      }
      CombinationsComplete(k, n, m + 1, c);
      InConcat(c, Leading(k, n, m), Combinations(k, n, m + 1));
    }
  }

  lemma {:induction false} LeadingComplete(k: int, n: int, m: int, c: seq<int>)
    requires |c| == k >= 1 && Increasing(c) && InRange(c, m, n) && c[0] == m
    ensures c in Leading(k, n, m)
    decreases n - m, 0
  {
    if k == 1 {
      assert c == [m];
    } else {
      var t := c[1..];
      TailCombination(c, m, n);
      CombinationsComplete(k - 1, n, m + 1, t);
      var sub := Combinations(k - 1, n, m + 1);
      var i :| 0 <= i < |sub| && sub[i] == t;
      assert Leading(k, n, m) == PrependAll(m, sub);
      assert Leading(k, n, m)[i] == c;
    }
  }

  /** The tail of a combination that starts with m is a combination over
      [m + 1, n). */
  lemma TailCombination(c: seq<int>, m: int, n: int)
    requires |c| >= 1 && Increasing(c) && InRange(c, m, n) && c[0] == m
    ensures Increasing(c[1..]) && InRange(c[1..], m + 1, n) && c == [m] + c[1..]
  {
    var t := c[1..];
    forall i | 0 <= i < |t| ensures m + 1 <= t[i] < n {
      assert t[i] == c[i + 1] && c[0] < c[i + 1];
    }
  }

  lemma LexSortedConcat(a: seq<seq<int>>, b: seq<seq<int>>)
    requires LexSorted(a) && LexSorted(b)
    requires forall i, j :: 0 <= i < |a| && 0 <= j < |b| ==> LexLess(a[i], b[j])
    ensures LexSorted(a + b)
  {
    var r := a + b;
    forall i, j | 0 <= i < j < |r| ensures LexLess(r[i], r[j]) {
      if j < |a| {
        assert r[i] == a[i] && r[j] == a[j];
      } else if i >= |a| {
        assert r[i] == b[i - |a|] && r[j] == b[j - |a|];
      } else {
        assert r[i] == a[i] && r[j] == b[j - |a|];
      }
    }
  }

  /** The lists come out in strictly increasing lexicographic order. */
  lemma {:induction false} CombinationsSorted(k: int, n: int, m: int)
    ensures LexSorted(Combinations(k, n, m))
    decreases n - m, 1
  {
    if m < n && k >= 1 {
      var first := Leading(k, n, m);
      var rest := Combinations(k, n, m + 1);
      CombinationsSorted(k, n, m + 1);
      LeadingSorted(k, n, m);
      forall i, j | 0 <= i < |first| && 0 <= j < |rest| ensures LexLess(first[i], rest[j]) {
        assert IsCombination(rest[j], k, m + 1, n);
        assert first[i][0] == m < rest[j][0];
      }
      LexSortedConcat(first, rest);
    } else if m < n {
      CombinationsNonPositive(k, n, m);
    }
  }

  lemma {:induction false} LeadingSorted(k: int, n: int, m: int)
    requires m < n && k >= 1
    ensures LexSorted(Leading(k, n, m))
    decreases n - m, 0
  {
    if k != 1 {
      var sub := Combinations(k - 1, n, m + 1);
      var first := Leading(k, n, m);
      CombinationsSorted(k - 1, n, m + 1);
      forall i, j | 0 <= i < j < |first| ensures LexLess(first[i], first[j]) {
        assert first[i] == [m] + sub[i] && first[j] == [m] + sub[j];
        assert first[i][1..] == sub[i] && first[j][1..] == sub[j];
      }
    }
  }

  lemma {:induction false} LexLessIrreflexive(a: seq<int>)
    ensures !LexLess(a, a)
  {
    if |a| > 0 {
      LexLessIrreflexive(a[1..]);
    }
  }

  /** No list is yielded twice. */
  lemma CombinationsOnce(k: int, n: int, m: int)
    ensures var r := Combinations(k, n, m);
      forall i, j :: 0 <= i < j < |r| ==> r[i] != r[j]
  {
    var r := Combinations(k, n, m);
    CombinationsSorted(k, n, m);
    forall i, j | 0 <= i < j < |r| ensures r[i] != r[j] {
      LexLessIrreflexive(r[i]);
    }
  }
}
