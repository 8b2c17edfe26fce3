/** The arithmetic skeleton of the `SPC` dataclass (spc.py): construction-time
    validation, the ordered sample behind the moving range, mean, moving range,
    the symmetric threshold pairs and the order-preserving outlier filters.
    Floats are exact reals; the population standard deviation is a parameter. */
module SpcAnalysis {
  import opened Wrappers
  import opened Seqs

  /** How the moving-range sample is ordered (the `ordering` field). */
  datatype Ordering = Sort | Shuffle | Original

  /** The class attribute `magic_constant`. */
  const MagicConstant: real := 2.66

  datatype SpcError =
      /** The `ValueError` of `__post_init__`; `n` is the value that the message
          reports, which the walrus operator binds to `len(raw_data) < 1`. */
    | InsufficientData(n: bool)
      /** The `StatisticsError` of `statistics.mean` on an empty list. */
    | NoDataPoints

  /** A `(low, high)` bound pair. */
  datatype Range = Range(lo: real, hi: real)

  /** The dataclass fields that the analysis reads. */
  datatype Spc = Spc(rawData: seq<real>, rounding: int, ordering: Ordering, shuffleReplicates: int)

  /** What construction guarantees of every instance. */
  predicate Valid(s: Spc) {
    |s.rawData| >= 1
  }

  /** `SPC(raw_data, rounding=..., ordering=..., shuffle_replicates=...)`: only an
      empty `raw_data` is rejected, and the message then reports `n=True`. */
  function New(rawData: seq<real>, rounding: int, ordering: Ordering, shuffleReplicates: int): (r: Result<Spc, SpcError>)
    ensures r.Failure? <==> |rawData| == 0
    ensures r.Failure? ==> r.error == InsufficientData(true)
    ensures r.Success? ==> Valid(r.value) && r.value == Spc(rawData, rounding, ordering, shuffleReplicates)
  {
    var l := |rawData| < 1;
    if l then Failure(InsufficientData(l)) else Success(Spc(rawData, rounding, ordering, shuffleReplicates))
  }

  function Abs(x: real): real {
    if x < 0.0 then -x else x
  }

  function Sum(s: seq<real>): real {
    if |s| == 0 then 0.0 else s[0] + Sum(s[1..])
  }

  /** `statistics.mean`, which raises on an empty list. */
  function StatMean(s: seq<real>): (r: Result<real, SpcError>)
    ensures r.Failure? <==> |s| == 0
    ensures r.Failure? ==> r.error == NoDataPoints
  {
    if |s| == 0 then Failure(NoDataPoints) else Success(Sum(s) / |s| as real)
  }

  function MinOf(s: seq<real>): (m: real)
    requires |s| > 0
    ensures m in s && forall x :: x in s ==> m <= x
  {
    if |s| == 1 then s[0]
    else
      var m := MinOf(s[1..]);
      assert forall x :: x in s ==> x == s[0] || x in s[1..];
      if s[0] <= m then s[0] else m
  }

  function MaxOf(s: seq<real>): (m: real)
    requires |s| > 0
    ensures m in s && forall x :: x in s ==> x <= m
  {
    if |s| == 1 then s[0]
    else
      var m := MaxOf(s[1..]);
      assert forall x :: x in s ==> x == s[0] || x in s[1..];
      if m <= s[0] then s[0] else m
  }

  /** `n` copies of `x` add up to `n * x`. */
  function Times(n: nat, x: real): (r: real)
    ensures r == n as real * x
  {
    if n == 0 then 0.0 else x + Times(n - 1, x)
  }

  lemma {:induction false} SumBounds(s: seq<real>, lo: real, hi: real)
    requires forall i :: 0 <= i < |s| ==> lo <= s[i] <= hi
    ensures Times(|s|, lo) <= Sum(s) <= Times(|s|, hi)
    decreases |s|
  {
    if |s| > 0 {
      SumBounds(s[1..], lo, hi);
    }
  }

  lemma DivisionBounds(total: real, n: real, lo: real, hi: real)
    requires n > 0.0 && n * lo <= total <= n * hi
    ensures lo <= total / n <= hi
  {
    assert (total / n) * n == total;
  }

  lemma RawDataWithin(d: seq<real>, lo: real, hi: real)
    requires forall x :: x in d ==> lo <= x <= hi
    ensures forall i :: 0 <= i < |d| ==> lo <= d[i] <= hi
  {
    forall i | 0 <= i < |d|
      ensures lo <= d[i] <= hi
    {
      assert d[i] in d;
    }
  }

  lemma ScaledSumBounds(d: seq<real>, n: real, lo: real, hi: real)
    requires n == |d| as real
    requires forall i :: 0 <= i < |d| ==> lo <= d[i] <= hi
    ensures n * lo <= Sum(d) <= n * hi
  {
    SumBounds(d, lo, hi);
  }

  lemma MeanWithin(d: seq<real>, n: real)
    requires |d| > 0 && n == |d| as real
    ensures MinOf(d) <= Sum(d) / n <= MaxOf(d)
  {
    var lo, hi := MinOf(d), MaxOf(d);
    RawDataWithin(d, lo, hi);
    ScaledSumBounds(d, n, lo, hi);
    DivisionBounds(Sum(d), n, lo, hi);
  }

  /** `mean`: the arithmetic mean of `raw_data`, which lies between its extremes. */
  function Mean(s: Spc): (r: real)
    requires Valid(s)
    ensures MinOf(s.rawData) <= r <= MaxOf(s.rawData)
  {
    MeanWithin(s.rawData, |s.rawData| as real);
    StatMean(s.rawData).value
  }

  // ---------------------------------------------------------------------------
  // The moving-range sample (`shuffled_data`)

  /** `list * k`: `k` concatenated copies of `s`, empty when `k <= 0`. */
  function Replicate(s: seq<real>, k: int): (r: seq<real>)
    ensures |r| == if k <= 0 then 0 else |s| * k
    ensures forall x :: multiset(r)[x] == if k <= 0 then 0 else k * multiset(s)[x]
  {
    if k <= 0 then [] else Copies(s, k)
  }

  lemma MulStep(a: int, k: int)
    ensures a * k == a + a * (k - 1)
  {
  }

  /** `n` concatenated copies of `s`. */
  function Copies(s: seq<real>, n: nat): (r: seq<real>)
    ensures |r| == |s| * n
    ensures forall x :: multiset(r)[x] == n * multiset(s)[x]
    decreases n
  {
    if n == 0 then []
    else
      var rest := Copies(s, n - 1);
      MulStep(|s|, n);
      CopiesStep(s, rest, n);
      s + rest
  }

  lemma CopiesStep(s: seq<real>, rest: seq<real>, n: nat)
    requires n >= 1
    requires forall x :: multiset(rest)[x] == (n - 1) * multiset(s)[x]
    ensures forall x :: multiset(s + rest)[x] == n * multiset(s)[x]
  {
    forall x
      ensures multiset(s + rest)[x] == n * multiset(s)[x]
    {
      MulStep(multiset(s)[x], n);
    }
  }

  /** The `i`-th and `j`-th elements exchanged (`x[i], x[j] = x[j], x[i]`). */
  function Swap(s: seq<real>, i: nat, j: nat): (r: seq<real>)
    requires i < |s| && j < |s|
    ensures |r| == |s| && multiset(r) == multiset(s)
  {
    s[i := s[j]][j := s[i]]
  }

  /** `randbelow(bound)` answered by the injected random source: the `k`-th draw
      reduced below `bound`, or 0 once the draws run out. */
  function RandBelow(draws: seq<nat>, k: nat, bound: nat): (r: nat)
    requires bound > 0
    ensures r < bound
  {
    if k < |draws| then draws[k] % bound else 0
  }

  /** The Fisher-Yates loop of `random.shuffle` for positions `m - 1` down to 1. */
  function ShuffleDown(d: seq<real>, draws: seq<nat>, m: nat): (r: seq<real>)
    requires m <= |d|
    ensures |r| == |d| && multiset(r) == multiset(d)
    decreases m
  {
    if m <= 1 then d
    else
      var i := m - 1;
      var j := RandBelow(draws, |d| - m, i + 1);
      ShuffleDown(Swap(d, i, j), draws, i)
  }

  /** `random.shuffle(d)` driven by the draws `draws`: always a permutation of `d`. */
  function RandomShuffle(d: seq<real>, draws: seq<nat>): (r: seq<real>)
    ensures |r| == |d| && multiset(r) == multiset(d)
  {
    ShuffleDown(d, draws, |d|)
  }

  predicate Ascending(s: seq<real>) {
    forall i, j :: 0 <= i < j < |s| ==> s[i] <= s[j]
  }

  function Insert(x: real, s: seq<real>): (r: seq<real>)
    requires Ascending(s)
    ensures Ascending(r) && multiset(r) == multiset(s) + multiset{x}
    decreases |s|
  {
    if |s| == 0 || x <= s[0] then
      AscendingCons(x, s);
      [x] + s
    else
      var rest := Insert(x, s[1..]);
      InsertedTailBounded(s, x, rest);
      AscendingCons(s[0], rest);
      [s[0]] + rest
  }

  /** Putting a lower bound in front keeps a sequence ascending. */
  lemma AscendingCons(h: real, t: seq<real>)
    requires Ascending(t) && (|t| == 0 || h <= t[0])
    ensures Ascending([h] + t)
  {
    var r := [h] + t;
    forall i, j | 0 <= i < j < |r|
      ensures r[i] <= r[j]
    {
      if i == 0 {
        assert r[j] == t[j - 1];
      } else {
        assert r[i] == t[i - 1] && r[j] == t[j - 1];
      }
    }
  }

  lemma InsertedTailBounded(s: seq<real>, x: real, rest: seq<real>)
    requires |s| > 0 && Ascending(s) && s[0] < x
    requires multiset(rest) == multiset(s[1..]) + multiset{x}
    ensures |rest| == 0 || s[0] <= rest[0]
    ensures multiset([s[0]] + rest) == multiset(s) + multiset{x}
  {
    assert s == [s[0]] + s[1..];
    assert multiset(s) == multiset{s[0]} + multiset(s[1..]);
    if |rest| > 0 {
      assert rest[0] in multiset(rest);
      if rest[0] != x {
        assert rest[0] in multiset(s[1..]);
        assert rest[0] in s[1..];
      }
    }
  }

  /** `sorted(s)`. */
  function SortAscending(s: seq<real>): (r: seq<real>)
    ensures Ascending(r) && multiset(r) == multiset(s)
  {
    if |s| == 0 then []
    else
      assert s == [s[0]] + s[1..];
      Insert(s[0], SortAscending(s[1..]))
  }

  /** There is only one ascending arrangement of a multiset of reals, so `sorted`
      is determined whatever algorithm computes it. */
  lemma {:induction false} AscendingPermutationUnique(a: seq<real>, b: seq<real>)
    requires Ascending(a) && Ascending(b) && multiset(a) == multiset(b)
    ensures a == b
    decreases |a|
  {
    assert |a| == |multiset(a)| == |multiset(b)| == |b|;
    if |a| > 0 {
      AscendingHeadIsLeast(a, b[0]);
      AscendingHeadIsLeast(b, a[0]);
      MultisetCancel(a, b);
      AscendingTail(a);
      AscendingTail(b);
      AscendingPermutationUnique(a[1..], b[1..]);
    }
  }

  lemma AscendingTail(a: seq<real>)
    requires Ascending(a) && |a| > 0
    ensures Ascending(a[1..])
  {
    forall i, j | 0 <= i < j < |a| - 1
      ensures a[1..][i] <= a[1..][j]
    {
      assert a[1..][i] == a[i + 1] && a[1..][j] == a[j + 1];
    }
  }

  /** Equal multisets stay equal once a common first element is removed. */
  lemma MultisetCancel(a: seq<real>, b: seq<real>)
    requires |a| > 0 && |b| > 0 && a[0] == b[0] && multiset(a) == multiset(b)
    ensures multiset(a[1..]) == multiset(b[1..])
  {
    assert a == [a[0]] + a[1..] && b == [b[0]] + b[1..];
    assert multiset(a) == multiset{a[0]} + multiset(a[1..]);
    assert multiset(b) == multiset{a[0]} + multiset(b[1..]);
    forall y
      ensures multiset(a[1..])[y] == multiset(b[1..])[y]
    {
      assert multiset(a)[y] == multiset(b)[y];
    }
  }

  lemma AscendingHeadIsLeast(a: seq<real>, y: real)
    requires Ascending(a) && |a| > 0 && y in multiset(a)
    ensures a[0] <= y
  {
    assert y in a;
  }

  /** `shuffled_data`: the sample the moving range is taken over. `draws` stands
      for the random source of `random.shuffle` and matters only for `Shuffle`.
      The sample is `raw_data` itself for "original", its ascending permutation
      for "sort", and a permutation of `shuffle_replicates` copies of it for "shuffle". */
  function ShuffledData(s: Spc, draws: seq<nat>): (r: seq<real>)
    ensures s.ordering == Original ==> r == s.rawData
    ensures s.ordering == Sort ==> Ascending(r) && multiset(r) == multiset(s.rawData)
    ensures s.ordering == Shuffle ==>
      && |r| == (if s.shuffleReplicates <= 0 then 0 else |s.rawData| * s.shuffleReplicates)
      && (forall x :: multiset(r)[x] == if s.shuffleReplicates <= 0 then 0 else s.shuffleReplicates * multiset(s.rawData)[x])
  {
    match s.ordering
    case Original => s.rawData
    case Sort => SortAscending(s.rawData)
    case Shuffle => RandomShuffle(Replicate(s.rawData, s.shuffleReplicates), draws)
  }

  // ---------------------------------------------------------------------------
  // The moving range (`mR`)

  /** `[abs(y - x) for x, y in pairwise(d)]`. */
  function MovingRanges(d: seq<real>): (r: seq<real>)
    ensures |r| == if |d| < 2 then 0 else |d| - 1
    ensures forall i :: 0 <= i < |r| ==> r[i] == Abs(d[i + 1] - d[i]) && r[i] >= 0.0
    decreases |d|
  {
    if |d| < 2 then [] else [Abs(d[1] - d[0])] + MovingRanges(d[1..])
  }

  lemma {:induction false} SumNonNegative(s: seq<real>)
    requires forall i :: 0 <= i < |s| ==> s[i] >= 0.0
    ensures Sum(s) >= 0.0
    decreases |s|
  {
    if |s| > 0 {
      SumNonNegative(s[1..]);
    }
  }

  lemma QuotientNonNegative(total: real, n: real)
    requires total >= 0.0 && n > 0.0
    ensures total / n >= 0.0
  {
  }

  /** The mean of non-negative values, when defined, is non-negative. */
  lemma MeanOfNonNegative(s: seq<real>)
    requires forall i :: 0 <= i < |s| ==> s[i] >= 0.0
    ensures StatMean(s).Success? ==> StatMean(s).value >= 0.0
  {
    SumNonNegative(s);
    if |s| > 0 {
      QuotientNonNegative(Sum(s), |s| as real);
    }
  }

  /** `mR`: defined exactly when the sample has at least two elements (otherwise
      `statistics.mean` raises), and then non-negative. */
  function MR(s: Spc, draws: seq<nat>): (r: Result<real, SpcError>)
    ensures r.Success? <==> |ShuffledData(s, draws)| >= 2
    ensures r.Failure? ==> r.error == NoDataPoints
    ensures r.Success? ==> r.value >= 0.0
  {
    var ranges := MovingRanges(ShuffledData(s, draws));
    MeanOfNonNegative(ranges);
    StatMean(ranges)
  }

  /** Absolute consecutive differences of an ascending sequence telescope. */
  lemma {:induction false} SortedRangesTelescope(d: seq<real>)
    requires |d| >= 1 && Ascending(d)
    ensures Sum(MovingRanges(d)) == d[|d| - 1] - d[0]
    decreases |d|
  {
    if |d| >= 2 {
      assert Ascending(d[1..]);
      SortedRangesTelescope(d[1..]);
      assert MovingRanges(d) == [d[1] - d[0]] + MovingRanges(d[1..]);
      assert ([d[1] - d[0]] + MovingRanges(d[1..]))[1..] == MovingRanges(d[1..]);
    }
  }

  /** The extremes of a sequence sit at the ends of its ascending arrangement. */
  lemma AscendingEnds(t: seq<real>, d: seq<real>)
    requires |d| > 0 && Ascending(t) && multiset(t) == multiset(d)
    ensures |t| == |d| && t[0] == MinOf(d) && t[|t| - 1] == MaxOf(d)
  {
    assert |multiset(t)| == |multiset(d)|;
    assert forall x :: x in t <==> x in d by {
      forall x ensures x in t <==> x in d {
        assert x in t <==> x in multiset(t);
        assert x in d <==> x in multiset(d);
      }
    }
    var lo, hi := MinOf(d), MaxOf(d);
    assert lo in t && hi in t;
    assert t[0] in d && t[|t| - 1] in d;
  }

  /** With `ordering="sort"`, `mR` is the data's range spread over `n - 1` gaps. */
  lemma SortedMRIsRangeOverGaps(s: Spc, draws: seq<nat>)
    requires s.ordering == Sort && |s.rawData| >= 2
    ensures MR(s, draws) == Success((MaxOf(s.rawData) - MinOf(s.rawData)) / (|s.rawData| - 1) as real)
  {
    var d := ShuffledData(s, draws);
    AscendingEnds(d, s.rawData);
    SortedRangesTelescope(d);
  }

  /** A one-element dataset passes construction, yet `mR` raises for the
      orderings that do not replicate the data. */
  lemma SingletonAcceptedThenMRFails(x: real, rounding: int, ordering: Ordering, replicates: int, draws: seq<nat>)
    requires ordering != Shuffle || replicates <= 1
    ensures New([x], rounding, ordering, replicates).Success?
    ensures MR(New([x], rounding, ordering, replicates).value, draws) == Failure(NoDataPoints)
  {
  }

  /** With `ordering="shuffle"` and at least two replicates, a one-element dataset
      gets a moving range of zero instead. */
  lemma SingletonReplicatedMRIsZero(x: real, rounding: int, replicates: int, draws: seq<nat>)
    requires replicates >= 2
    ensures MR(Spc([x], rounding, Shuffle, replicates), draws) == Success(0.0)
  {
    var s := Spc([x], rounding, Shuffle, replicates);
    var d := ShuffledData(s, draws);
    forall y | y != x
      ensures multiset(d)[y] == 0
    {
      assert multiset([x])[y] == 0;
      assert multiset(d)[y] == replicates * 0;
    }
    OnlyValueOccurring(d, x);
    var ranges := MovingRanges(d);
    ConstantRangesSumZero(d, x);
    assert |s.rawData| == 1;
    assert |d| == replicates;
    assert MR(s, draws) == StatMean(ranges);
    ZeroOverPositive(|ranges| as real);
  }

  lemma ZeroOverPositive(n: real)
    requires n > 0.0
    ensures 0.0 / n == 0.0
  {
  }

  lemma OnlyValueOccurring(d: seq<real>, x: real)
    requires forall y :: y != x ==> multiset(d)[y] == 0
    ensures forall i :: 0 <= i < |d| ==> d[i] == x
  {
    forall i | 0 <= i < |d|
      ensures d[i] == x
    {
      assert d[i] in multiset(d);
    }
  }

  lemma {:induction false} ConstantRangesSumZero(d: seq<real>, x: real)
    requires forall i :: 0 <= i < |d| ==> d[i] == x
    ensures Sum(MovingRanges(d)) == 0.0
    decreases |d|
  {
    if |d| >= 2 {
      ConstantRangesSumZero(d[1..], x);
      assert MovingRanges(d) == [0.0] + MovingRanges(d[1..]);
      assert ([0.0] + MovingRanges(d[1..]))[1..] == MovingRanges(d[1..]);
    }
  }

  // ---------------------------------------------------------------------------
  // Thresholds and outliers

  /** `thresholds(width)`: a pair centred on the mean, `width` away on each side. */
  function Thresholds(s: Spc, width: real): (r: Range)
    requires Valid(s)
    ensures r.lo + r.hi == 2.0 * Mean(s)
    ensures r.hi - r.lo == 2.0 * width
  {
    Range(Mean(s) - width, Mean(s) + width)
  }

  /** `two_sd`, where `sd` is the population standard deviation of the data. */
  function TwoSd(s: Spc, sd: real): (r: Range)
    requires Valid(s) && sd >= 0.0
    ensures r.lo + r.hi == 2.0 * Mean(s) && r.hi - r.lo == 4.0 * sd
    ensures r.lo <= Mean(s) <= r.hi
  {
    Thresholds(s, 2.0 * sd)
  }

  /** `three_sd`. */
  function ThreeSd(s: Spc, sd: real): (r: Range)
    requires Valid(s) && sd >= 0.0
    ensures r.lo + r.hi == 2.0 * Mean(s) && r.hi - r.lo == 6.0 * sd
    ensures r.lo <= Mean(s) <= r.hi
  {
    Thresholds(s, 3.0 * sd)
  }

  /** `spc_thresholds`: raises exactly when `mR` does. */
  function SpcThresholds(s: Spc, draws: seq<nat>): (r: Result<Range, SpcError>)
    requires Valid(s)
    ensures r.Success? <==> |ShuffledData(s, draws)| >= 2
    ensures r.Success? ==>
      && r.value.lo + r.value.hi == 2.0 * Mean(s)
      && r.value.hi - r.value.lo == 2.0 * MagicConstant * MR(s, draws).value
      && r.value.lo <= Mean(s) <= r.value.hi
  {
    match MR(s, draws)
    case Failure(e) => Failure(e)
    case Success(m) => Success(Thresholds(s, MagicConstant * m))
  }

  /** The condition `x < lo or x > hi`. */
  function Outside(lo: real, hi: real): real -> bool {
    x => x < lo || x > hi
  }

  /** The condition `abs(x) < lo or abs(x) > hi`. */
  function AbsOutside(lo: real, hi: real): real -> bool {
    x => Abs(x) < lo || Abs(x) > hi
  }

  /** `outliers(lo, hi)`: the raw values outside `[lo, hi]`, in their original order. */
  function Outliers(s: Spc, lo: real, hi: real): (r: seq<real>)
    ensures IsSubsequence(r, s.rawData)
    ensures forall x :: multiset(r)[x] == if x < lo || x > hi then multiset(s.rawData)[x] else 0
  {
    FilterCounts(s.rawData, Outside(lo, hi));
    Filter(s.rawData, Outside(lo, hi))
  }

  /** `abs_outliers(lo, hi)`: the raw values whose magnitude is outside `[lo, hi]`. */
  function AbsOutliers(s: Spc, lo: real, hi: real): (r: seq<real>)
    ensures IsSubsequence(r, s.rawData)
    ensures forall x :: multiset(r)[x] == if Abs(x) < lo || Abs(x) > hi then multiset(s.rawData)[x] else 0
  {
    FilterCounts(s.rawData, AbsOutside(lo, hi));
    Filter(s.rawData, AbsOutside(lo, hi))
  }

  /** `outs(width)`: the raw values further than `width` from the mean. */
  function Outs(s: Spc, width: real): (r: seq<real>)
    requires Valid(s)
    ensures IsSubsequence(r, s.rawData)
    ensures forall x :: multiset(r)[x] == if Abs(x - Mean(s)) > width then multiset(s.rawData)[x] else 0
  {
    var t := Thresholds(s, width);
    Outliers(s, t.lo, t.hi)
  }

  /** A wider band never flags more: `outs(w2)` is a subsequence of `outs(w1)`. */
  lemma OutsAntitone(s: Spc, w1: real, w2: real)
    requires Valid(s) && w1 <= w2
    ensures IsSubsequence(Outs(s, w2), Outs(s, w1))
    ensures |Outs(s, w2)| <= |Outs(s, w1)|
    ensures forall x :: x in Outs(s, w2) ==> x in Outs(s, w1)
  {
    var t1, t2 := Thresholds(s, w1), Thresholds(s, w2);
    FilterStrongerIsSubsequence(s.rawData, Outside(t2.lo, t2.hi), Outside(t1.lo, t1.hi));
    SubsequenceMembers(Outs(s, w2), Outs(s, w1));
  }

  /** The 3-sigma band contains the 2-sigma band, so its outliers are among the 2-sigma ones. */
  lemma SigmaBandsNest(s: Spc, sd: real)
    requires Valid(s) && sd >= 0.0
    ensures ThreeSd(s, sd).lo <= TwoSd(s, sd).lo && TwoSd(s, sd).hi <= ThreeSd(s, sd).hi
    ensures IsSubsequence(Outs(s, 3.0 * sd), Outs(s, 2.0 * sd))
  {
    OutsAntitone(s, 2.0 * sd, 3.0 * sd);
  }

  /** On non-negative data the magnitude filter and the signed filter agree. */
  lemma AbsOutliersOnNonNegativeData(s: Spc, lo: real, hi: real)
    requires forall i :: 0 <= i < |s.rawData| ==> s.rawData[i] >= 0.0
    ensures AbsOutliers(s, lo, hi) == Outliers(s, lo, hi)
  {
    FilterAgrees(s.rawData, AbsOutside(lo, hi), Outside(lo, hi));
  }

  lemma {:induction false} FilterAgrees(d: seq<real>, p: real -> bool, q: real -> bool)
    requires forall i :: 0 <= i < |d| ==> p(d[i]) == q(d[i])
    ensures Filter(d, p) == Filter(d, q)
    decreases |d|
  {
    if |d| > 0 {
      FilterAgrees(d[1..], p, q);
    }
  }
}
