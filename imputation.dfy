/**
  Model of `DataPreprocessor.data_imputation`: every missing entry of an
  array is overwritten with one fill value, the mean, median or mode of the
  present entries, or the caller's `replacement` when no entry is present.

  An entry is an `Option<real>`, `None` standing for NaN. The method name
  stays a string, as in the source, so that an unknown name can be
  rejected with the source's error.
*/
module Imputation {
  import opened Wrappers
  import Statistics

  /** The three recognised method names. */
  datatype Strategy = Mean | Median | Mode
  {
    /** The method name that selects this strategy. */
    function Name(): string
    {
      match this
      case Mean => "Mean"
      case Median => "Median"
      case Mode => "Mode"
    }
  }

  /** The `ValueError` raised for an unknown method name. */
  datatype ImputeError = InvalidMethod(message: string)

  const InvalidMethodMessage: string := "Invalid method. Choose 'Mean', 'Median', or 'Mode'."

  /** The dispatch of lines 54-66 on the method name. */
  function StrategyOf(name: string): (r: Option<Strategy>)
    ensures r.Some? ==> r.value.Name() == name
    ensures r.None? ==> name != "Mean" && name != "Median" && name != "Mode"
  {
    if name == "Mean" then Some(Mean)
    else if name == "Median" then Some(Median)
    else if name == "Mode" then Some(Mode)
    else None
  }

  /** Each strategy is selected by its own name, so the dispatch accepts exactly the three names. */
  lemma StrategyOfName(strategy: Strategy)
    ensures StrategyOf(strategy.Name()) == Some(strategy)
  {
  }

  /** The number of missing (NaN) entries. */
  function MissingCount(xs: seq<Option<real>>): nat
  {
    if xs == [] then 0 else (if xs[0].None? then 1 else 0) + MissingCount(xs[1..])
  }

  /** The present (non-NaN) entries, in order: what the `nan`-aware statistics see. */
  function Present(xs: seq<Option<real>>): (p: seq<real>)
    ensures |p| + MissingCount(xs) == |xs|
    ensures forall x :: x in p <==> Some(x) in xs
  {
    if xs == [] then []
    else
      var rest := Present(xs[1..]);
      assert forall y :: y in xs <==> y == xs[0] || y in xs[1..];
      if xs[0].Some? then [xs[0].value] + rest else rest
  }

  /** The present entries keep the multiplicity of every value. */
  lemma {:induction false} PresentMultiset(xs: seq<Option<real>>)
    ensures forall x :: multiset(Present(xs))[x] == multiset(xs)[Some(x)]
  {
    if xs != [] {
      PresentMultiset(xs[1..]);
      assert xs == [xs[0]] + xs[1..];
    }
  }

  /** `m` is the chosen statistic of the present values p, by its defining property. */
  ghost predicate IsStatistic(p: seq<real>, strategy: Strategy, m: real)
  {
    match strategy
    case Mean => m * (|p| as real) == Statistics.Sum(p)
    case Median => 2 * Statistics.CountAtMost(p, m) >= |p| && 2 * Statistics.CountAtLeast(p, m) >= |p|
    case Mode =>
      m in p &&
      (forall x :: x in p ==> multiset(p)[x] <= multiset(p)[m]) &&
      (forall x :: x in p && multiset(p)[x] == multiset(p)[m] ==> m <= x)
  }

  /** The value written into the missing slots (lines 54-63): the statistic
      of the present entries, or `replacement` when there are none. */
  function FillValue(xs: seq<Option<real>>, replacement: Option<real>, strategy: Strategy): (fill: Option<real>)
    ensures Present(xs) == [] ==> fill == replacement
    ensures Present(xs) != [] ==> fill.Some? && IsStatistic(Present(xs), strategy, fill.value)
  {
    var p := Present(xs);
    if p == [] then replacement
    else
      match strategy
      case Mean =>
        var m := Statistics.Mean(p);
        assert IsStatistic(p, Mean, m);
        Some(m)
      case Median =>
        var m := Statistics.Median(p);
        assert IsStatistic(p, Median, m);
        Some(m)
      case Mode =>
        var m := Statistics.Mode(p);
        assert IsStatistic(p, Mode, m);
        Some(m)
  }

  /** xs with every missing entry replaced by fill (line 69). */
  function Imputed(xs: seq<Option<real>>, fill: Option<real>): (r: seq<Option<real>>)
    ensures |r| == |xs|
    ensures forall i :: 0 <= i < |xs| ==> r[i] == if xs[i].Some? then xs[i] else fill
  {
    if xs == [] then []
    else [if xs[0].Some? then xs[0] else fill] + Imputed(xs[1..], fill)
  }

  /** `arr[np.isnan(arr)] = value`: overwrites the missing slots in place. */
  method ReplaceMissing(arr: array<Option<real>>, fill: Option<real>)
    modifies arr
    ensures arr[..] == Imputed(old(arr[..]), fill)
  {
    var i := 0;
    while i < arr.Length
      invariant 0 <= i <= arr.Length
      invariant forall j :: 0 <= j < i ==> arr[j] == if old(arr[j]).Some? then old(arr[j]) else fill
      invariant forall j :: i <= j < arr.Length ==> arr[j] == old(arr[j])
    {
      if arr[i].None? {
        arr[i] := fill;
      }
      i := i + 1;
    }
  }

  /** The model of `data_imputation(value, replacement, method)`. */
  method DataImputation(value: seq<Option<real>>, replacement: Option<real>, methodName: string)
    returns (r: Result<seq<Option<real>>, ImputeError>)
    ensures value == [] ==> r == Success([replacement])
    ensures value != [] && StrategyOf(methodName).None? ==> r == Failure(InvalidMethod(InvalidMethodMessage))
    ensures value != [] && StrategyOf(methodName).Some? ==>
      r == Success(Imputed(value, FillValue(value, replacement, StrategyOf(methodName).value)))
    ensures value != [] && r.Success? ==>
      |r.value| == |value| &&
      (forall i :: 0 <= i < |value| && value[i].Some? ==> r.value[i] == value[i]) &&
      (forall i, j :: 0 <= i < |value| && 0 <= j < |value| && value[i].None? && value[j].None? ==>
         r.value[i] == r.value[j])
  {
    var arr := new Option<real>[|value|](i requires 0 <= i < |value| => value[i]);
    assert arr[..] == value;
    if arr.Length == 0 {
      return Success([replacement]);
    }
    var fill: Option<real>;
    if methodName == "Mean" {
      fill := FillValue(arr[..], replacement, Mean);
    } else if methodName == "Median" {
      fill := FillValue(arr[..], replacement, Median);
    } else if methodName == "Mode" {
      fill := FillValue(arr[..], replacement, Mode);
    } else {
      return Failure(InvalidMethod(InvalidMethodMessage));
    }
    ReplaceMissing(arr, fill);
    return Success(arr[..]);
  }

  // ---------------------------------------------------------------------
  // Properties of imputation
  // ---------------------------------------------------------------------

  /** Imputing twice with the same fill value is the same as imputing once. */
  lemma ImputedIdempotent(xs: seq<Option<real>>, fill: Option<real>)
    ensures Imputed(Imputed(xs, fill), fill) == Imputed(xs, fill)
  {
  }

  /** With a numeric fill value no entry is missing afterwards. */
  lemma {:induction false} NothingMissingAfterImputation(xs: seq<Option<real>>, m: real)
    ensures MissingCount(Imputed(xs, Some(m))) == 0
    ensures |Present(Imputed(xs, Some(m)))| == |xs|
  {
    if xs != [] {
      NothingMissingAfterImputation(xs[1..], m);
      assert Imputed(xs, Some(m))[1..] == Imputed(xs[1..], Some(m));
    }
  }

  /** One step of the recursions in the property lemmas below. */
  lemma PresentOfImputedCons(xs: seq<Option<real>>, m: real)
    requires xs != []
    ensures Present(Imputed(xs, Some(m)))
         == [if xs[0].Some? then xs[0].value else m] + Present(Imputed(xs[1..], Some(m)))
  {
    assert Imputed(xs, Some(m))[1..] == Imputed(xs[1..], Some(m));
  }

  /** The present values after imputing with m: those before, plus one m per missing slot. */
  lemma {:induction false} MultisetAfterImputation(xs: seq<Option<real>>, m: real)
    ensures multiset(Present(Imputed(xs, Some(m))))
         == multiset(Present(xs))[m := multiset(Present(xs))[m] + MissingCount(xs)]
  {
    if xs != [] {
      MultisetAfterImputation(xs[1..], m);
      PresentOfImputedCons(xs, m);
    }
  }

  /** k copies of m added up. */
  function Times(k: nat, m: real): real
  {
    if k == 0 then 0.0 else m + Times(k - 1, m)
  }

  lemma TimesSucc(c: nat, k: nat, m: real)
    requires c == k + 1
    ensures Times(c, m) == m + Times(k, m)
  {
  }

  lemma {:induction false} TimesIsProduct(k: nat, m: real)
    ensures Times(k, m) == (k as real) * m
  {
    if k > 0 {
      TimesIsProduct(k - 1, m);
      assert (k as real) * m == ((k - 1) as real) * m + m;
    }
  }

  /** Imputing with m adds one m to the sum per missing slot. */
  lemma {:induction false} SumAfterImputation(xs: seq<Option<real>>, m: real)
    ensures Statistics.Sum(Present(Imputed(xs, Some(m))))
         == Statistics.Sum(Present(xs)) + Times(MissingCount(xs), m)
  {
    if xs != [] {
      SumAfterImputation(xs[1..], m);
      var head := if xs[0].Some? then xs[0].value else m;
      var rest := Present(Imputed(xs[1..], Some(m)));
      var k := MissingCount(xs[1..]);
      var before := Statistics.Sum(Present(xs[1..]));
      PresentOfImputedCons(xs, m);
      SumOfCons(head, rest);
      assert Statistics.Sum(Present(Imputed(xs, Some(m)))) == head + before + Times(k, m);
      if xs[0].Some? {
        assert Present(xs) == [head] + Present(xs[1..]);
        SumOfCons(head, Present(xs[1..]));
        assert Statistics.Sum(Present(xs)) == head + before;
        assert MissingCount(xs) == k;
      } else {
        assert Present(xs) == Present(xs[1..]);
        assert MissingCount(xs) == k + 1;
        TimesSucc(MissingCount(xs), k, m);
      }
    }
  }

  lemma SumOfCons(x: real, s: seq<real>)
    ensures Statistics.Sum([x] + s) == x + Statistics.Sum(s)
  {
    assert ([x] + s)[1..] == s;
  }

  /** Imputing with m adds one value on each side of m per missing slot. */
  lemma {:induction false} CountsAfterImputation(xs: seq<Option<real>>, m: real)
    ensures Statistics.CountAtMost(Present(Imputed(xs, Some(m))), m)
         == Statistics.CountAtMost(Present(xs), m) + MissingCount(xs)
    ensures Statistics.CountAtLeast(Present(Imputed(xs, Some(m))), m)
         == Statistics.CountAtLeast(Present(xs), m) + MissingCount(xs)
  {
    if xs != [] {
      CountsAfterImputation(xs[1..], m);
      PresentOfImputedCons(xs, m);
      var head := if xs[0].Some? then xs[0].value else m;
      CountsOfCons(head, Present(Imputed(xs[1..], Some(m))), m);
      if xs[0].Some? {
        CountsOfCons(head, Present(xs[1..]), m);
      }
    }
  }

  lemma CountsOfCons(x: real, s: seq<real>, m: real)
    ensures Statistics.CountAtMost([x] + s, m) == (if x <= m then 1 else 0) + Statistics.CountAtMost(s, m)
    ensures Statistics.CountAtLeast([x] + s, m) == (if x >= m then 1 else 0) + Statistics.CountAtLeast(s, m)
  {
    assert ([x] + s)[1..] == s;
  }

  lemma CancelFactor(a: real, b: real, n: real)
    requires n > 0.0 && a * n == b * n
    ensures a == b
  {
    assert (a - b) * n == 0.0;
  }

  /** The arithmetic behind `MeanOfExtended`, on plain reals. */
  lemma MeanArithmetic(sp: real, sq: real, n: real, k: real, m: real, mq: real)
    requires n > 0.0 && k >= 0.0
    requires sp == m * n && sq == sp + k * m && mq * (n + k) == sq
    ensures mq == m
  {
    assert m * (n + k) == sq;
    CancelFactor(mq, m, n + k);
  }

  /** Adding k copies of the mean to a sequence keeps its mean. */
  lemma MeanOfExtended(p: seq<real>, q: seq<real>, k: nat, m: real)
    requires |p| > 0 && m == Statistics.Mean(p)
    requires |q| == |p| + k
    requires Statistics.Sum(q) == Statistics.Sum(p) + (k as real) * m
    ensures Statistics.Mean(q) == m
  {
    var mq := Statistics.Mean(q);
    assert (|q| as real) == |p| as real + k as real;
    MeanArithmetic(Statistics.Sum(p), Statistics.Sum(q), |p| as real, k as real, m, mq);
  }

  /** Filling with the mean leaves the mean of the present values unchanged. */
  lemma MeanImputationKeepsMean(xs: seq<Option<real>>)
    requires Present(xs) != []
    ensures Statistics.Mean(Present(Imputed(xs, Some(Statistics.Mean(Present(xs))))))
         == Statistics.Mean(Present(xs))
  {
    var p := Present(xs);
    var m := Statistics.Mean(p);
    var k := MissingCount(xs);
    SumAfterImputation(xs, m);
    TimesIsProduct(k, m);
    NothingMissingAfterImputation(xs, m);
    MeanOfExtended(p, Present(Imputed(xs, Some(m))), k, m);
  }

  /** Filling with the median keeps it a median: at least half of the
      present values still lie on each side of it. */
  lemma MedianImputationKeepsMedianSplit(xs: seq<Option<real>>, replacement: Option<real>)
    requires Present(xs) != []
    ensures FillValue(xs, replacement, Median).Some?
    ensures IsStatistic(Present(Imputed(xs, FillValue(xs, replacement, Median))), Median,
                        FillValue(xs, replacement, Median).value)
  {
    var m := FillValue(xs, replacement, Median).value;
    CountsAfterImputation(xs, m);
    NothingMissingAfterImputation(xs, m);
  }

  /** Filling with the mode leaves the mode of the present values unchanged. */
  lemma ModeImputationKeepsMode(xs: seq<Option<real>>, replacement: Option<real>)
    requires Present(xs) != []
    ensures FillValue(xs, replacement, Mode).Some?
    ensures Statistics.Mode(Present(Imputed(xs, FillValue(xs, replacement, Mode))))
         == FillValue(xs, replacement, Mode).value
  {
    var m := FillValue(xs, replacement, Mode).value;
    var p, q := Present(xs), Present(Imputed(xs, Some(m)));
    MultisetAfterImputation(xs, m);
    assert m in multiset(q);
    forall x | x in q
      ensures multiset(q)[x] <= multiset(q)[m]
      ensures multiset(q)[x] == multiset(q)[m] ==> m <= x
    {
      if x != m {
        assert x in multiset(q);
        assert x in p;
      }
    }
    Statistics.ModeUnique(q, m);
  }

  /** A worked case: [1, 2, NaN] with the mean is filled with 1.5. */
  lemma MeanFillExample()
    ensures FillValue([Some(1.0), Some(2.0), None], None, Mean) == Some(1.5)
    ensures Imputed([Some(1.0), Some(2.0), None], Some(1.5)) == [Some(1.0), Some(2.0), Some(1.5)]
  {
    var xs := [Some(1.0), Some(2.0), None];
    var tail: seq<Option<real>> := [None];
    assert xs[1..] == [Some(2.0), None] && xs[1..][1..] == tail && tail[1..] == [];
    assert Present(xs) == [1.0, 2.0];
    Statistics.MeanExample();
  }

  /** A worked case: with no present entry, the caller's replacement fills every slot. */
  lemma FallbackFillExample()
    ensures FillValue([None, None], Some(9.0), Mean) == Some(9.0)
    ensures Imputed([None, None], Some(9.0)) == [Some(9.0), Some(9.0)]
  {
    var ys: seq<Option<real>> := [None, None];
    var tail: seq<Option<real>> := [None];
    assert ys[1..] == tail && tail[1..] == [];
    assert Present(ys) == [];
  }

  /** What a caller can derive from the contract of DataImputation alone:
      the worked cases of the imputation rule. */
  method DataImputationMeanClient()
  {
    var xs := [Some(1.0), Some(2.0), None];
    var r := DataImputation(xs, None, "Mean");
    MeanFillExample();
    assert r == Success([Some(1.0), Some(2.0), Some(1.5)]);

    var ys := [None, None];
    r := DataImputation(ys, Some(9.0), "Mean");
    FallbackFillExample();
    assert r == Success([Some(9.0), Some(9.0)]);
  }

  method DataImputationEdgeClient()
  {
    var r := DataImputation([], Some(5.0), "Mean");
    assert r == Success([Some(5.0)]);

    r := DataImputation([], Some(5.0), "Average");
    assert r == Success([Some(5.0)]);

    r := DataImputation([Some(1.0), None], None, "Average");
    assert r == Failure(InvalidMethod(InvalidMethodMessage));
  }
}
