/**
 * The arithmetic that app/services.py does on grade lists with Python's
 * `sum`, `len`, `sorted`, `/` and `//`: sums, extrema, an ascending sort,
 * the mean and the median. Means and medians are exact rationals (`real`).
 */
module Statistics {

  /** Python's `sum` over a list of grades. */
  function Sum(s: seq<int>): int
  {
    if s == [] then 0 else s[0] + Sum(s[1..])
  }

  /** The smallest grade of a non-empty list. */
  function Minimum(s: seq<int>): (m: int)
    requires s != []
    ensures m in s
    ensures forall x :: x in s ==> m <= x
  {
    if |s| == 1 then s[0]
    else
      var rest := Minimum(s[1..]);
      assert forall x :: x in s ==> x == s[0] || x in s[1..];
      if s[0] <= rest then s[0] else rest
  }

  /** The largest grade of a non-empty list. */
  function Maximum(s: seq<int>): (m: int)
    requires s != []
    ensures m in s
    ensures forall x :: x in s ==> x <= m
  {
    if |s| == 1 then s[0]
    else
      var rest := Maximum(s[1..]);
      assert forall x :: x in s ==> x == s[0] || x in s[1..];
      if rest <= s[0] then s[0] else rest
  }

  predicate IsSorted(s: seq<int>)
  {
    forall i, j :: 0 <= i < j < |s| ==> s[i] <= s[j]
  }

  /** Inserts `x` into an ascending list, keeping it ascending. */
  function Insert(x: int, s: seq<int>): (r: seq<int>)
    requires IsSorted(s)
    ensures IsSorted(r)
    ensures multiset(r) == multiset(s) + multiset{x}
    ensures |r| == |s| + 1
    ensures r[0] == x || (s != [] && r[0] == s[0])
  {
    if s == [] || x <= s[0] then [x] + s
    else
      var tail := Insert(x, s[1..]);
      assert s == [s[0]] + s[1..];
      assert s[0] <= tail[0];
      [s[0]] + tail
  }

  /** Python's `sorted` on a list of integers: ascending and a permutation of its input. */
  function SortAscending(s: seq<int>): (r: seq<int>)
    ensures IsSorted(r)
    ensures multiset(r) == multiset(s)
  {
    if s == [] then []
    else
      assert s == [s[0]] + s[1..];
      Insert(s[0], SortAscending(s[1..]))
  }

  /** `sum(grade_list) / len(grade_list)` with exact division. */
  function Mean(s: seq<int>): (r: real)
    requires s != []
    ensures r * |s| as real == Sum(s) as real
  {
    Sum(s) as real / |s| as real
  }

  /**
   * Sorts the grades ascending and splits at `mid = len // 2`: the middle
   * element for an odd count, the mean of the two middle elements for an
   * even count.
   */
  function Median(s: seq<int>): (r: real)
    requires s != []
    ensures var sorted := SortAscending(s);
      |sorted| == |s| && 2.0 * r == (sorted[(|s| - 1) / 2] + sorted[|s| / 2]) as real
  {
    SortKeepsLength(s);
    MiddleOf(SortAscending(s))
  }

  lemma SortKeepsLength(s: seq<int>)
    ensures |SortAscending(s)| == |s|
  {
    assert |SortAscending(s)| == |multiset(SortAscending(s))| == |multiset(s)|;
  }

  /**
   * The middle of an already sorted, non-empty list, split at `len // 2`:
   * the mean of the elements at positions `(len - 1) // 2` and `len // 2`,
   * which coincide for an odd length.
   */
  function MiddleOf(sorted: seq<int>): (r: real)
    requires sorted != []
    ensures 2.0 * r == (sorted[(|sorted| - 1) / 2] + sorted[|sorted| / 2]) as real
  {
    var mid := |sorted| / 2;
    if |sorted| % 2 == 0 then (sorted[mid - 1] + sorted[mid]) as real / 2.0
    else sorted[mid] as real
  }

  /** How many grades are at most `m`. */
  function CountAtMost(s: seq<int>, m: real): nat
  {
    if s == [] then 0 else (if s[0] as real <= m then 1 else 0) + CountAtMost(s[1..], m)
  }

  /** How many grades are at least `m`. */
  function CountAtLeast(s: seq<int>, m: real): nat
  {
    if s == [] then 0 else (if s[0] as real >= m then 1 else 0) + CountAtLeast(s[1..], m)
  }

  // ---------------------------------------------------------------------
  // The sort is determined by the multiset of its input
  // ---------------------------------------------------------------------

  /** Two ascending lists with the same elements are the same list. */
  lemma {:induction false} SortedUnique(a: seq<int>, b: seq<int>)
    requires IsSorted(a) && IsSorted(b)
    requires multiset(a) == multiset(b)
    ensures a == b
  {
    if a == [] {
      assert |b| == |multiset(b)| == 0;
    } else {
      HeadsAgree(a, b);
      SortedTail(a);
      SortedTail(b);
      SortedUnique(a[1..], b[1..]);
      assert a == [a[0]] + a[1..];
      assert b == [b[0]] + b[1..];
    }
  }

  /** Two ascending lists with the same elements start alike and continue with the same elements. */
  lemma HeadsAgree(a: seq<int>, b: seq<int>)
    requires IsSorted(a) && IsSorted(b)
    requires multiset(a) == multiset(b) && a != []
    ensures b != [] && a[0] == b[0]
    ensures multiset(a[1..]) == multiset(b[1..])
  {
    assert a[0] in multiset(a);
    SortedHeadIsLeast(b, a[0]);
    assert b[0] in multiset(b);
    SortedHeadIsLeast(a, b[0]);
    MultisetOfTail(a);
    MultisetOfTail(b);
  }

  lemma SortedTail(s: seq<int>)
    requires IsSorted(s) && s != []
    ensures IsSorted(s[1..])
  {
  }

  lemma SortedHeadIsLeast(s: seq<int>, x: int)
    requires IsSorted(s) && x in multiset(s)
    ensures s != [] && s[0] <= x
  {
    var i :| 0 <= i < |s| && s[i] == x;
  }

  lemma MultisetOfTail(s: seq<int>)
    requires s != []
    ensures multiset(s[1..]) == multiset(s) - multiset{s[0]}
  {
    assert s == [s[0]] + s[1..];
  }

  /** Sorting preserves the things computed by a fold over the elements. */
  lemma {:induction false} InsertFolds(x: int, s: seq<int>, m: real)
    requires IsSorted(s)
    ensures Sum(Insert(x, s)) == x + Sum(s)
    ensures CountAtMost(Insert(x, s), m) == CountAtMost([x] + s, m)
    ensures CountAtLeast(Insert(x, s), m) == CountAtLeast([x] + s, m)
  {
    if s == [] || x <= s[0] {
      assert Insert(x, s)[1..] == s;
    } else {
      var r := Insert(x, s);
      assert r[1..] == Insert(x, s[1..]);
      assert ([x] + s)[1..] == s;
      assert ([x] + s[1..])[1..] == s[1..];
      InsertFolds(x, s[1..], m);
    }
  }

  lemma {:induction false} SortFolds(s: seq<int>, m: real)
    ensures Sum(SortAscending(s)) == Sum(s)
    ensures CountAtMost(SortAscending(s), m) == CountAtMost(s, m)
    ensures CountAtLeast(SortAscending(s), m) == CountAtLeast(s, m)
  {
    if s != [] {
      SortFolds(s[1..], m);
      InsertFolds(s[0], SortAscending(s[1..]), m);
      assert ([s[0]] + SortAscending(s[1..]))[1..] == SortAscending(s[1..]);
    }
  }

  /** Mean and median depend only on the multiset of grades, not their order. */
  lemma OrderIndependent(a: seq<int>, b: seq<int>)
    requires a != [] && multiset(a) == multiset(b)
    ensures b != []
    ensures Mean(a) == Mean(b)
    ensures Median(a) == Median(b)
  {
    assert |a| == |multiset(a)| == |multiset(b)| == |b|;
    SortedUnique(SortAscending(a), SortAscending(b));
    SortFolds(a, 0.0);
    SortFolds(b, 0.0);
  }

  // ---------------------------------------------------------------------
  // Bounds
  // ---------------------------------------------------------------------

  lemma {:induction false} SumBounds(s: seq<int>, lo: int, hi: int)
    requires forall x :: x in s ==> lo <= x <= hi
    ensures |s| * lo <= Sum(s) <= |s| * hi
  {
    if s != [] {
      assert forall x :: x in s[1..] ==> x in s;
      SumBounds(s[1..], lo, hi);
      assert s[0] in s;
      MultiplySuccessor(|s| - 1, lo);
      MultiplySuccessor(|s| - 1, hi);
    }
  }

  lemma MultiplySuccessor(n: nat, k: int)
    ensures (n + 1) * k == k + n * k
  {
  }

  lemma DivisionBounds(total: int, n: nat, lo: int, hi: int)
    requires n > 0 && n * lo <= total <= n * hi
    ensures lo as real <= total as real / n as real <= hi as real
  {
    var q := total as real / n as real;
    assert q * n as real == total as real;
    assert (n * lo) as real == n as real * lo as real;
    assert (n * hi) as real == n as real * hi as real;
  }

  /** The mean lies between the smallest and the largest grade. */
  lemma MeanBounds(s: seq<int>)
    requires s != []
    ensures Minimum(s) as real <= Mean(s) <= Maximum(s) as real
  {
    SumBounds(s, Minimum(s), Maximum(s));
    DivisionBounds(Sum(s), |s|, Minimum(s), Maximum(s));
  }

  /** The median lies between the smallest and the largest grade. */
  lemma MedianBounds(s: seq<int>)
    requires s != []
    ensures Minimum(s) as real <= Median(s) <= Maximum(s) as real
  {
    var sorted := SortAscending(s);
    assert |sorted| == |multiset(sorted)| == |s|;
    forall i | 0 <= i < |sorted|
      ensures Minimum(s) <= sorted[i] <= Maximum(s)
    {
      ElementBounds(s, sorted, i);
    }
    MiddleBounds(sorted, Minimum(s), Maximum(s));
  }

  lemma ElementBounds(s: seq<int>, t: seq<int>, i: nat)
    requires s != [] && multiset(t) == multiset(s) && i < |t|
    ensures Minimum(s) <= t[i] <= Maximum(s)
  {
    assert t[i] in multiset(t);
    assert t[i] in s;
  }

  lemma MiddleBounds(t: seq<int>, lo: int, hi: int)
    requires t != []
    requires forall i :: 0 <= i < |t| ==> lo <= t[i] <= hi
    ensures lo as real <= MiddleOf(t) <= hi as real
  {
  }

  // ---------------------------------------------------------------------
  // The median splits the grades into halves
  // ---------------------------------------------------------------------

  lemma {:induction false} CountPrefix(s: seq<int>, m: real, j: nat)
    requires j <= |s|
    requires forall i :: 0 <= i < j ==> s[i] as real <= m
    ensures CountAtMost(s, m) >= j
  {
    if j > 0 {
      CountPrefix(s[1..], m, j - 1);
    }
  }

  lemma {:induction false} CountSuffix(s: seq<int>, m: real, j: nat)
    requires j <= |s|
    requires forall i :: j <= i < |s| ==> s[i] as real >= m
    ensures CountAtLeast(s, m) + j >= |s|
  {
    if s != [] {
      CountSuffix(s[1..], m, if j == 0 then 0 else j - 1);
    }
  }

  /**
   * At least half of the grades are at most the median and at least half
   * are at least the median: the defining property of a median.
   */
  lemma MedianSplitsHalves(s: seq<int>)
    requires s != []
    ensures 2 * CountAtMost(s, Median(s)) >= |s|
    ensures 2 * CountAtLeast(s, Median(s)) >= |s|
  {
    var sorted := SortAscending(s);
    assert |sorted| == |multiset(sorted)| == |s|;
    SortFolds(s, Median(s));
    MiddleSplitsHalves(sorted);
  }

  lemma MiddleSplitsHalves(t: seq<int>)
    requires t != [] && IsSorted(t)
    ensures 2 * CountAtMost(t, MiddleOf(t)) >= |t|
    ensures 2 * CountAtLeast(t, MiddleOf(t)) >= |t|
  {
    var med := MiddleOf(t);
    var n := |t|;
    var mid := n / 2;
    if n % 2 == 0 {
      assert t[mid - 1] as real <= med <= t[mid] as real;
      assert forall i :: 0 <= i < mid ==> t[i] <= t[mid - 1];
      CountPrefix(t, med, mid);
      assert forall i :: mid <= i < n ==> t[mid] <= t[i];
      CountSuffix(t, med, mid);
    } else {
      assert forall i :: 0 <= i <= mid ==> t[i] <= t[mid];
      CountPrefix(t, med, mid + 1);
      assert forall i :: mid <= i < n ==> t[mid] <= t[i];
      CountSuffix(t, med, mid);
    }
  }

  /** When every grade equals `v`, so do the mean and the median. */
  lemma UniformMeanMedian(s: seq<int>, v: int)
    requires s != []
    requires forall x :: x in s ==> x == v
    ensures Mean(s) == v as real
    ensures Median(s) == v as real
  {
    MeanBounds(s);
    MedianBounds(s);
  }

  // ---------------------------------------------------------------------
  // Sum of the values of a map, in no particular order
  // ---------------------------------------------------------------------

  ghost function PickKey(m: map<string, int>): string
    requires m != map[]
  {
    var k :| k in m; k
  }

  /** The sum of a map's values, independent of any iteration order. */
  ghost function MapSum(m: map<string, int>): int
    decreases |m|
  {
    if m == map[] then 0
    else
      var k := PickKey(m);
      assert |m - {k}| < |m| by {
        assert (m - {k}).Keys == m.Keys - {k};
      }
      m[k] + MapSum(m - {k})
  }

  lemma {:induction false} MapSumRemove(m: map<string, int>, k: string)
    requires k in m
    ensures MapSum(m) == m[k] + MapSum(m - {k})
    decreases |m|
  {
    var p := PickKey(m);
    assert (m - {p}).Keys == m.Keys - {p};
    if p != k {
      assert (m - {k}).Keys == m.Keys - {k};
      MapSumRemove(m - {p}, k);
      MapSumRemove(m - {k}, p);
      assert m - {p} - {k} == m - {k} - {p};
    }
  }

  /** Sums `m`'s values in the order of `keys`, as iterating a Python dict does. */
  function SumInOrder(keys: seq<string>, m: map<string, int>): int
    requires forall k :: k in keys ==> k in m
  {
    if keys == [] then 0 else m[keys[0]] + SumInOrder(keys[1..], m)
  }

  predicate Distinct(keys: seq<string>)
  {
    forall i, j :: 0 <= i < j < |keys| ==> keys[i] != keys[j]
  }

  lemma DistinctTail(keys: seq<string>)
    requires Distinct(keys) && keys != []
    ensures Distinct(keys[1..]) && keys[0] !in keys[1..]
  {
    forall j | 0 <= j < |keys[1..]|
      ensures keys[1..][j] != keys[0]
    {
      assert keys[1..][j] == keys[j + 1];
    }
  }

  lemma {:induction false} SumInOrderIgnores(keys: seq<string>, m: map<string, int>, k: string)
    requires forall x :: x in keys ==> x in m
    requires k !in keys
    ensures SumInOrder(keys, m) == SumInOrder(keys, m - {k})
  {
    if keys != [] {
      SumInOrderIgnores(keys[1..], m, k);
    }
  }

  /**
   * Iterating the keys of a dict once each, in whatever order, visits
   * exactly `len(d)` values whose sum is the order-free MapSum.
   */
  lemma {:induction false} SumInOrderIsMapSum(keys: seq<string>, m: map<string, int>)
    requires Distinct(keys)
    requires forall k :: k in keys <==> k in m
    ensures SumInOrder(keys, m) == MapSum(m)
    ensures |keys| == |m|
  {
    if keys == [] {
      assert m == map[];
    } else {
      var k := keys[0];
      var rest := m - {k};
      DistinctTail(keys);
      assert forall x :: x in keys[1..] <==> x in rest by {
        assert keys == [k] + keys[1..];
      }
      SumInOrderIgnores(keys[1..], m, k);
      SumInOrderIsMapSum(keys[1..], rest);
      MapSumRemove(m, k);
      assert rest.Keys == m.Keys - {k};
    }
  }

  /** Grades 90 and 85: an even count, so the median is the mean of the two middle grades. */
  lemma EvenMedianExample()
    ensures Median([90, 85]) == 87.5
  {
    assert [90, 85][1..] == [85];
    assert SortAscending([85]) == [85];
    assert SortAscending([90, 85]) == [85, 90];
  }
}
