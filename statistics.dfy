/**
  The statistics `data_imputation` fills missing entries with: the mean
  (`np.nanmean`), the median (`np.nanmedian`) and the mode (`scipy.stats.mode`)
  of the present values. Each is given a concrete definition here and a
  contract that characterises it: the mean times the count is the sum, the
  median has at least half of the values on each side, and the mode has a
  maximal count.
*/
module Statistics {

  // ---------------------------------------------------------------------
  // Mean
  // ---------------------------------------------------------------------

  function Sum(s: seq<real>): real
  {
    if s == [] then 0.0 else s[0] + Sum(s[1..])
  }

  /** The arithmetic mean: the value whose `|s|`-fold multiple is the sum. */
  function Mean(s: seq<real>): (m: real)
    requires |s| > 0
    ensures m * (|s| as real) == Sum(s)
  {
    Sum(s) / (|s| as real)
  }

  lemma {:induction false} SumBounds(s: seq<real>, lo: real, hi: real)
    requires forall i :: 0 <= i < |s| ==> lo <= s[i] <= hi
    ensures (|s| as real) * lo <= Sum(s) <= (|s| as real) * hi
  {
    if s != [] {
      SumBounds(s[1..], lo, hi);
      assert (|s| as real) * lo == lo + ((|s| - 1) as real) * lo;
      assert (|s| as real) * hi == hi + ((|s| - 1) as real) * hi;
    }
  }

  lemma LowerBoundOfQuotient(a: real, b: real, n: real)
    requires n > 0.0 && a * n <= b
    ensures a <= b / n
  {
    assert b / n - a == (b - a * n) / n;
  }

  lemma UpperBoundOfQuotient(a: real, b: real, n: real)
    requires n > 0.0 && b <= a * n
    ensures b / n <= a
  {
    assert a - b / n == (a * n - b) / n;
  }

  /** The mean lies between any lower and any upper bound of the values. */
  lemma MeanWithinBounds(s: seq<real>, lo: real, hi: real)
    requires |s| > 0
    requires forall i :: 0 <= i < |s| ==> lo <= s[i] <= hi
    ensures lo <= Mean(s) <= hi
  {
    SumBounds(s, lo, hi);
    var n := |s| as real;
    assert lo * n <= Sum(s) <= hi * n;
    LowerBoundOfQuotient(lo, Sum(s), n);
    UpperBoundOfQuotient(hi, Sum(s), n);
  }

  lemma {:induction false} SumAppend(s: seq<real>, t: seq<real>)
    ensures Sum(s + t) == Sum(s) + Sum(t)
  {
    if s == [] {
      assert s + t == t;
    } else {
      assert (s + t)[1..] == s[1..] + t;
      SumAppend(s[1..], t);
    }
  }

  // ---------------------------------------------------------------------
  // Median
  // ---------------------------------------------------------------------

  ghost predicate Sorted(s: seq<real>)
  {
    forall i, j :: 0 <= i < j < |s| ==> s[i] <= s[j]
  }

  /** Inserts x before the first element of s that is not below it. */
  function Insert(x: real, s: seq<real>): (r: seq<real>)
    ensures multiset(r) == multiset(s) + multiset{x}
    ensures |r| == |s| + 1
  {
    if s == [] then [x]
    else if x <= s[0] then [x] + s
    else
      assert s == [s[0]] + s[1..];
      [s[0]] + Insert(x, s[1..])
  }

  lemma {:induction false} InsertBoundedBelow(x: real, s: seq<real>, lo: real)
    requires lo <= x
    requires forall i :: 0 <= i < |s| ==> lo <= s[i]
    ensures forall i :: 0 <= i < |Insert(x, s)| ==> lo <= Insert(x, s)[i]
  {
    if s != [] && x > s[0] {
      InsertBoundedBelow(x, s[1..], lo);
    }
  }

  /** Inserting into a sorted sequence keeps it sorted. */
  lemma {:induction false} InsertSorted(x: real, s: seq<real>)
    requires Sorted(s)
    ensures Sorted(Insert(x, s))
  {
    if s != [] && x > s[0] {
      InsertSorted(x, s[1..]);
      InsertBoundedBelow(x, s[1..], s[0]);
    }
  }

  /** Insertion sort, standing in for the ordering the median is taken over. */
  function SortAscending(s: seq<real>): (t: seq<real>)
    ensures Sorted(t)
    ensures multiset(t) == multiset(s)
    ensures |t| == |s|
  {
    if s == [] then []
    else
      assert s == [s[0]] + s[1..];
      InsertSorted(s[0], SortAscending(s[1..]));
      Insert(s[0], SortAscending(s[1..]))
  }

  /** The number of values not above m. */
  function CountAtMost(s: seq<real>, m: real): nat
  {
    if s == [] then 0 else (if s[0] <= m then 1 else 0) + CountAtMost(s[1..], m)
  }

  /** The number of values not below m. */
  function CountAtLeast(s: seq<real>, m: real): nat
  {
    if s == [] then 0 else (if s[0] >= m then 1 else 0) + CountAtLeast(s[1..], m)
  }

  lemma {:induction false} CountsOfInsert(x: real, s: seq<real>, m: real)
    ensures CountAtMost(Insert(x, s), m) == CountAtMost(s, m) + (if x <= m then 1 else 0)
    ensures CountAtLeast(Insert(x, s), m) == CountAtLeast(s, m) + (if x >= m then 1 else 0)
  {
    if s != [] && x > s[0] {
      CountsOfInsert(x, s[1..], m);
      var r := Insert(x, s);
      assert r[1..] == Insert(x, s[1..]);
    }
  }

  lemma {:induction false} CountsOfSort(s: seq<real>, m: real)
    ensures CountAtMost(SortAscending(s), m) == CountAtMost(s, m)
    ensures CountAtLeast(SortAscending(s), m) == CountAtLeast(s, m)
  {
    if s != [] {
      CountsOfSort(s[1..], m);
      CountsOfInsert(s[0], SortAscending(s[1..]), m);
    }
  }

  /** If the first j values are all at most m, at least j values are. */
  lemma {:induction false} CountAtMostPrefix(t: seq<real>, m: real, j: nat)
    requires j <= |t|
    requires forall i :: 0 <= i < j ==> t[i] <= m
    ensures CountAtMost(t, m) >= j
  {
    if j > 0 {
      CountAtMostPrefix(t[1..], m, j - 1);
    }
  }

  /** If the values from index j on are all at least m, at least |t| - j values are. */
  lemma {:induction false} CountAtLeastSuffix(t: seq<real>, m: real, j: nat)
    requires j <= |t|
    requires forall i :: j <= i < |t| ==> t[i] >= m
    ensures CountAtLeast(t, m) >= |t| - j
  {
    if t != [] {
      CountAtLeastSuffix(t[1..], m, if j > 0 then j - 1 else 0);
    }
  }

  /** The middle value of t, or the mean of its two middle values when |t| is even. */
  function Middle(t: seq<real>): real
    requires |t| > 0
  {
    var k := |t| / 2;
    if |t| % 2 == 1 then t[k] else (t[k - 1] + t[k]) / 2.0
  }

  /** The median: the middle of the sorted values. */
  function Median(s: seq<real>): (m: real)
    requires |s| > 0
    ensures 2 * CountAtMost(s, m) >= |s| && 2 * CountAtLeast(s, m) >= |s|
  {
    var t := SortAscending(s);
    MiddleOfSortedSplitsInHalf(t);
    CountsOfSort(s, Middle(t));
    Middle(t)
  }

  lemma MiddleOfSortedSplitsInHalf(t: seq<real>)
    requires |t| > 0 && Sorted(t)
    ensures 2 * CountAtMost(t, Middle(t)) >= |t|
    ensures 2 * CountAtLeast(t, Middle(t)) >= |t|
    ensures |t| % 2 == 1 ==> Middle(t) == t[|t| / 2]
  {
    var k, m := |t| / 2, Middle(t);
    if |t| % 2 == 1 {
      CountAtMostPrefix(t, m, k + 1);
      CountAtLeastSuffix(t, m, k);
    } else {
      assert t[k - 1] <= m <= t[k];
      CountAtMostPrefix(t, m, k);
      CountAtLeastSuffix(t, m, k);
    }
  }

  /** At least half of the values are at most the median, and at least half
      are at least the median; for an odd count the median is one of them. */
  lemma MedianSplitsInHalf(s: seq<real>)
    requires |s| > 0
    ensures 2 * CountAtMost(s, Median(s)) >= |s|
    ensures 2 * CountAtLeast(s, Median(s)) >= |s|
    ensures |s| % 2 == 1 ==> Median(s) in s
  {
    var t := SortAscending(s);
    MiddleOfSortedSplitsInHalf(t);
    if |s| % 2 == 1 {
      assert t[|t| / 2] in multiset(s);
    }
  }

  lemma HeadIsMinimum(a: seq<real>, x: real)
    requires Sorted(a) && x in multiset(a)
    ensures a[0] <= x
  {
    var j :| 0 <= j < |a| && a[j] == x;
    if j > 0 {
      assert a[0] <= a[j];
    }
  }

  lemma TailOfSorted(a: seq<real>)
    requires Sorted(a) && a != []
    ensures Sorted(a[1..])
    ensures multiset(a[1..]) == multiset(a) - multiset{a[0]}
  {
    assert a == [a[0]] + a[1..];
  }

  /** Two sorted arrangements of the same values are the same sequence. */
  lemma {:induction false} SortedUnique(a: seq<real>, b: seq<real>)
    requires Sorted(a) && Sorted(b) && multiset(a) == multiset(b)
    ensures a == b
  {
    if a == [] {
      assert |b| == |multiset(b)| == 0;
    } else {
      assert b != [] by {
        assert |b| == |multiset(b)| == |multiset(a)| == |a|;
      }
      HeadIsMinimum(a, b[0]);
      HeadIsMinimum(b, a[0]);
      TailOfSorted(a);
      TailOfSorted(b);
      SortedUnique(a[1..], b[1..]);
      SameHeadAndTail(a, b);
    }
  }

  lemma SameHeadAndTail(a: seq<real>, b: seq<real>)
    requires a != [] && b != [] && a[0] == b[0] && a[1..] == b[1..]
    ensures a == b
  {
    assert a == [a[0]] + a[1..] && b == [b[0]] + b[1..];
  }

  /** The median is taken over any sorted arrangement t of the values: its
      middle value for an odd count, the mean of its two middle values for
      an even count. */
  lemma MedianOfSortedArrangement(s: seq<real>, t: seq<real>)
    requires |s| > 0 && Sorted(t) && multiset(t) == multiset(s)
    ensures |t| == |s|
    ensures |s| % 2 == 1 ==> Median(s) == t[|s| / 2]
    ensures |s| % 2 == 0 ==> Median(s) == (t[|s| / 2 - 1] + t[|s| / 2]) / 2.0
  {
    assert |t| == |multiset(t)| == |multiset(s)| == |s|;
    var u := SortAscending(s);
    SortedUnique(u, t);
    assert Median(s) == Middle(t);
  }

  // ---------------------------------------------------------------------
  // Mode
  // ---------------------------------------------------------------------

  /** a is at least as good a mode of s as b: it occurs more often, or as
      often and is not larger (the smallest of equally frequent values wins). */
  predicate Beats(s: seq<real>, a: real, b: real)
  {
    multiset(s)[b] < multiset(s)[a] || (multiset(s)[b] == multiset(s)[a] && a <= b)
  }

  /** The best mode candidate of s among the values c. */
  function MostFrequentAmong(s: seq<real>, c: seq<real>): (m: real)
    requires |c| > 0
    ensures m in c
    ensures forall x :: x in c ==> Beats(s, m, x)
  {
    if |c| == 1 then c[0]
    else
      var best := MostFrequentAmong(s, c[1..]);
      assert forall x :: x in c ==> x == c[0] || x in c[1..];
      if Beats(s, c[0], best) then c[0] else best
  }

  /** A most frequent value, the smallest one when several are equally frequent. */
  function Mode(s: seq<real>): (m: real)
    requires |s| > 0
    ensures m in s
    ensures forall x :: x in s ==> multiset(s)[x] <= multiset(s)[m]
    ensures forall x :: x in s && multiset(s)[x] == multiset(s)[m] ==> m <= x
  {
    MostFrequentAmong(s, s)
  }

  /** The mode's two properties pin it down. */
  lemma ModeUnique(s: seq<real>, a: real)
    requires a in s
    requires forall x :: x in s ==> multiset(s)[x] <= multiset(s)[a]
    requires forall x :: x in s && multiset(s)[x] == multiset(s)[a] ==> a <= x
    ensures a == Mode(s)
  {
  }

  /** A worked case of the mean. */
  lemma MeanExample()
    ensures Mean([1.0, 2.0]) == 1.5
  {
    assert Sum([1.0, 2.0]) == 3.0 by {
      assert [1.0, 2.0][1..] == [2.0];
      assert [2.0][1..] == [];
    }
  }

  /** A worked case of the median, read off the sorted arrangement [1, 2, 3]. */
  lemma MedianExample()
    ensures Median([3.0, 1.0, 2.0]) == 2.0
  {
    assert multiset([1.0, 2.0, 3.0]) == multiset([3.0, 1.0, 2.0]);
    MedianOfSortedArrangement([3.0, 1.0, 2.0], [1.0, 2.0, 3.0]);
  }

  /** A worked case of the mode. */
  lemma ModeExample()
    ensures Mode([4.0, 7.0, 4.0]) == 4.0
  {
    var p := [4.0, 7.0, 4.0];
    assert multiset(p)[4.0] == 2 && multiset(p)[7.0] == 1;
    assert forall x :: x in p ==> x == 4.0 || x == 7.0;
    ModeUnique(p, 4.0);
  }
}
