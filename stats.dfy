/**
 * The statistics engine (benchmark.py, calculate_stats): from the results of
 * one run it derives counts, min/avg/max latency, the p50/p95/p99 latency and
 * the aggregate-time throughput, all over the successful results only, or
 * the "no successful requests" sentinel when there are none.
 *
 * Latencies are reals: Python's float rounding in statistics.mean, in the
 * throughput division and in `int(n * 0.95)` is not modelled, and the
 * percentile index `int(n * p)` is the exact floor of n * p.
 */
module Stats {
  import opened Wrappers
  import opened Request
  import opened Sorting

  /** The report of one run, or the sentinel returned when nothing succeeded. */
  datatype RunStats =
    | NoSuccessfulRequests
    | Report(total: nat, success: nat, errors: nat,
             min: real, max: real, avg: real,
             p50: real, p95: real, p99: real,
             throughput: real)

  /** Samples below which p95 falls back to the maximum. */
  const P95MinSamples: nat := 20
  /** Samples below which p99 falls back to the maximum. */
  const P99MinSamples: nat := 100

  /** The successful results, in the order collected. */
  function Successful(results: seq<RequestResult>): (ok: seq<RequestResult>)
    ensures |ok| <= |results|
  {
    if results == [] then []
    else (if results[0].success then [results[0]] else []) + Successful(results[1..])
  }

  /** The successful subset holds every successful result as often as it was collected, and nothing else. */
  lemma {:induction false} SuccessfulMultiset(results: seq<RequestResult>)
    ensures forall r :: multiset(Successful(results))[r] == if r.success then multiset(results)[r] else 0
  {
    if results != [] {
      SuccessfulMultiset(results[1..]);
      assert results == [results[0]] + results[1..];
    }
  }

  /** The latency of each result, in the same order. */
  function Latencies(rs: seq<RequestResult>): (ls: seq<real>)
    ensures |ls| == |rs|
    ensures forall i :: 0 <= i < |rs| ==> ls[i] == rs[i].latencyMs
  {
    if rs == [] then [] else [rs[0].latencyMs] + Latencies(rs[1..])
  }

  /** The latencies that every figure of a report is computed from. */
  function SuccessLatencies(results: seq<RequestResult>): seq<real>
  {
    Latencies(Successful(results))
  }

  /** Number of successful results, counted one by one. */
  function CountSuccess(results: seq<RequestResult>): nat
  {
    if results == [] then 0
    else (if results[0].success then 1 else 0) + CountSuccess(results[1..])
  }

  function Sum(s: seq<real>): real
  {
    if s == [] then 0.0 else s[0] + Sum(s[1..])
  }

  /** Python's min(): the least sample. */
  function Min(s: seq<real>): (m: real)
    requires |s| > 0
    ensures m in s
    ensures forall k :: 0 <= k < |s| ==> m <= s[k]
  {
    if |s| == 1 then s[0]
    else
      var rest := Min(s[1..]);
      assert s == [s[0]] + s[1..];
      if s[0] <= rest then s[0] else rest
  }

  /** Python's max(): the greatest sample. */
  function Max(s: seq<real>): (m: real)
    requires |s| > 0
    ensures m in s
    ensures forall k :: 0 <= k < |s| ==> s[k] <= m
  {
    if |s| == 1 then s[0]
    else
      var rest := Max(s[1..]);
      assert s == [s[0]] + s[1..];
      if s[0] >= rest then s[0] else rest
  }

  /** statistics.mean, computed exactly: it lies between the smallest and the largest sample. */
  function Mean(s: seq<real>): (m: real)
    requires |s| > 0
    ensures Min(s) <= m <= Max(s)
  {
    MeanBetween(s);
    Sum(s) / (|s| as real)
  }

  lemma MeanBetween(s: seq<real>)
    requires |s| > 0
    ensures Min(s) <= Sum(s) / (|s| as real) <= Max(s)
  {
    AverageBetween(s, Min(s), Max(s));
  }

  /** The average of samples between lo and hi is between lo and hi. */
  lemma AverageBetween(s: seq<real>, lo: real, hi: real)
    requires |s| > 0
    requires forall k :: 0 <= k < |s| ==> lo <= s[k] <= hi
    ensures lo <= Sum(s) / (|s| as real) <= hi
  {
    SumBetween(s, lo, hi);
    QuotientBetween(Sum(s), |s| as real, lo, hi);
  }

  /** Samples between lo and hi sum to between n * lo and n * hi. */
  lemma {:induction false} SumBetween(s: seq<real>, lo: real, hi: real)
    requires forall k :: 0 <= k < |s| ==> lo <= s[k] <= hi
    ensures (|s| as real) * lo <= Sum(s) <= (|s| as real) * hi
  {
    if s != [] {
      SumBetween(s[1..], lo, hi);
      assert (|s| as real) * lo == lo + (|s[1..]| as real) * lo;
      assert (|s| as real) * hi == hi + (|s[1..]| as real) * hi;
    }
  }

  lemma QuotientBetween(a: real, n: real, lo: real, hi: real)
    requires n > 0.0 && n * lo <= a <= n * hi
    ensures lo <= a / n <= hi
  {
    assert a / n * n == a;
  }

  /** The index `int(n * percent / 100)` into a sorted list of n samples. */
  function PercentileIndex(n: nat, percent: nat): (k: nat)
    requires 0 < n && percent < 100
    ensures k < n
    ensures k * 100 <= n * percent < (k + 1) * 100
  {
    var k := n * percent / 100;
    assert n * percent < n * 100;
    k
  }

  /**
   * The latency a percentile reports: the sorted sample at index
   * floor(n * percent / 100) once there are at least minSamples samples,
   * and the largest sample before that.
   */
  function Percentile(sorted: seq<real>, percent: nat, minSamples: nat): (v: real)
    requires |sorted| > 0 && percent < 100
    ensures v in sorted
  {
    var n := |sorted|;
    if n >= minSamples then sorted[PercentileIndex(n, percent)] else sorted[n - 1]
  }

  /** Successful requests per second of summed latency (not of wall-clock time). */
  function Throughput(successCount: nat, latencies: seq<real>): (t: real)
    requires Sum(latencies) != 0.0
    ensures successCount == 0 ==> t == 0.0
    ensures successCount > 0 && Sum(latencies) > 0.0 ==> t > 0.0
  {
    if successCount > 0 && Sum(latencies) > 0.0 then
      QuotientPositive(successCount as real, Sum(latencies) / 1000.0);
      (successCount as real) / (Sum(latencies) / 1000.0)
    else
      (successCount as real) / (Sum(latencies) / 1000.0)
  }

  /**
   * What calculate_stats needs of its input: the throughput division is by
   * the summed successful latency, and Python raises ZeroDivisionError when
   * that sum is zero.
   */
  predicate ThroughputDefined(results: seq<RequestResult>)
  {
    SuccessLatencies(results) != [] ==> Sum(SuccessLatencies(results)) != 0.0
  }

  /**
   * The report calculate_stats builds for a run of `total` results whose
   * successful latencies, in collection order, are ls.
   */
  function Summarize(total: nat, ls: seq<real>): (st: RunStats)
    requires 0 < |ls| <= total && Sum(ls) != 0.0
    ensures st.Report? && st.total == total && st.success == |ls| && st.success + st.errors == total
  {
    var sorted := Sort(ls);
    var n := |ls|;
    Report(
      total, n, total - n,
      Min(ls), Max(ls), Mean(ls),
      Percentile(sorted, 50, 0),
      Percentile(sorted, 95, P95MinSamples),
      Percentile(sorted, 99, P99MinSamples),
      Throughput(n, ls))
  }

  /** calculate_stats. */
  function CalculateStats(results: seq<RequestResult>): (st: RunStats)
    requires ThroughputDefined(results)
    ensures st.NoSuccessfulRequests? <==> forall i :: 0 <= i < |results| ==> !results[i].success
    ensures st.Report? ==> st.total == |results| && st.success + st.errors == st.total
    ensures st.Report? ==> 1 <= st.success == CountSuccess(results)
  {
    var latencies := SuccessLatencies(results);
    NoSuccessIffEmpty(results);
    SuccessfulCount(results);
    if latencies == [] then NoSuccessfulRequests
    else Summarize(|results|, latencies)
  }

  // ---------------------------------------------------------------------
  // Facts about the filter and the sums

  /** The successful subset is empty exactly when no result succeeded. */
  lemma NoSuccessIffEmpty(results: seq<RequestResult>)
    ensures Successful(results) == [] <==> forall i :: 0 <= i < |results| ==> !results[i].success
  {
    var ok := Successful(results);
    SuccessfulMultiset(results);
    if ok != [] {
      assert ok[0] in multiset(ok);
      assert ok[0].success && ok[0] in multiset(results);
      var i :| 0 <= i < |results| && results[i] == ok[0];
    }
    forall i | 0 <= i < |results| && results[i].success
      ensures ok != []
    {
      assert results[i] in multiset(results);
      assert multiset(ok)[results[i]] > 0;
    }
  }

  /** The number of successful results is the length of the successful subset. */
  lemma {:induction false} SuccessfulCount(results: seq<RequestResult>)
    ensures |Successful(results)| == CountSuccess(results)
  {
    if results != [] {
      SuccessfulCount(results[1..]);
    }
  }

  lemma {:induction false} SuccessfulAppend(a: seq<RequestResult>, b: seq<RequestResult>)
    ensures Successful(a + b) == Successful(a) + Successful(b)
  {
    if a == [] {
      assert a + b == b;
    } else {
      assert (a + b)[0] == a[0] && (a + b)[1..] == a[1..] + b;
      SuccessfulAppend(a[1..], b);
    }
  }

  lemma LatenciesAppend(a: seq<RequestResult>, b: seq<RequestResult>)
    ensures Latencies(a + b) == Latencies(a) + Latencies(b)
  {
    var l, la, lb := Latencies(a + b), Latencies(a), Latencies(b);
    assert |l| == |la + lb|;
    forall i | 0 <= i < |l|
      ensures l[i] == (la + lb)[i]
    {
      if i < |a| {
        assert (a + b)[i] == a[i];
      } else {
        assert (a + b)[i] == b[i - |a|];
      }
    }
  }

  /** Reordering the results reorders their latencies and nothing more. */
  lemma {:induction false} LatenciesPermutation(a: seq<RequestResult>, b: seq<RequestResult>)
    requires multiset(a) == multiset(b)
    ensures multiset(Latencies(a)) == multiset(Latencies(b))
    decreases |a|
  {
    assert |a| == |multiset(a)| == |multiset(b)| == |b|;
    if a != [] {
      var x := a[0];
      assert x in multiset(b);
      var j :| 0 <= j < |b| && b[j] == x;
      var rest := b[..j] + b[j + 1..];
      RemoveAt(b, j);
      TailMultiset(a);
      LatenciesPermutation(a[1..], rest);
      LatenciesRemoveAt(b, j);
      LatenciesAppend([x], a[1..]);
    }
  }

  /** Taking out the element at j takes one copy of it out of the multiset. */
  lemma RemoveAt(b: seq<RequestResult>, j: nat)
    requires j < |b|
    ensures multiset(b[..j] + b[j + 1..]) == multiset(b) - multiset{b[j]}
  {
    assert b == b[..j] + [b[j]] + b[j + 1..];
  }

  lemma SplitAt(b: seq<RequestResult>, j: nat)
    requires j < |b|
    ensures b == (b[..j] + [b[j]]) + b[j + 1..]
  {
  }

  /** The latencies of b are those of b without its j-th result, plus that result's latency. */
  lemma LatenciesRemoveAt(b: seq<RequestResult>, j: nat)
    requires j < |b|
    ensures multiset(Latencies(b)) == multiset(Latencies(b[..j] + b[j + 1..])) + multiset{b[j].latencyMs}
  {
    var p, x, q := b[..j], b[j], b[j + 1..];
    SplitAt(b, j);
    LatenciesAppend(p + [x], q);
    LatenciesAppend(p, [x]);
    LatenciesAppend(p, q);
    var lp, lq := Latencies(p), Latencies(q);
    assert Latencies([x]) == [x.latencyMs];
    assert Latencies(b) == (lp + [x.latencyMs]) + lq;
    assert Latencies(p + q) == lp + lq;
    assert multiset((lp + [x.latencyMs]) + lq) == multiset(lp) + multiset{x.latencyMs} + multiset(lq);
  }


  lemma {:induction false} SumInsert(x: real, s: seq<real>)
    requires Sorted(s)
    ensures Sum(Insert(x, s)) == x + Sum(s)
  {
    if s != [] && x > s[0] {
      SumInsert(x, s[1..]);
    }
  }

  lemma {:induction false} SumSort(s: seq<real>)
    ensures Sum(Sort(s)) == Sum(s)
  {
    if s != [] {
      SumSort(s[1..]);
      SumInsert(s[0], Sort(s[1..]));
    }
  }

  /** The summed latency does not depend on the order the samples arrived in. */
  lemma SumPermutationInvariant(a: seq<real>, b: seq<real>)
    requires multiset(a) == multiset(b)
    ensures Sum(a) == Sum(b)
  {
    SumSort(a);
    SumSort(b);
    SortPermutationInvariant(a, b);
  }

  /** min() and max() of the samples are the two ends of the sorted list. */
  lemma MinMaxAreSortedEnds(s: seq<real>)
    requires |s| > 0
    ensures |Sort(s)| == |s|
    ensures Min(s) == Sort(s)[0] && Max(s) == Sort(s)[|s| - 1]
  {
    SortedBounds(s);
    var r := Sort(s);
    assert r[0] in multiset(s) && r[|s| - 1] in multiset(s);
  }

  // ---------------------------------------------------------------------
  // Properties of a report

  /** The reported minimum and maximum are one of the samples each, bound every sample, and are the ends of the sorted list. */
  lemma ReportExtremes(total: nat, ls: seq<real>)
    requires 0 < |ls| <= total && Sum(ls) != 0.0
    ensures var st, r := Summarize(total, ls), Sort(ls);
      && |r| == |ls|
      && st.min in ls && st.max in ls
      && st.min == r[0] && st.max == r[|ls| - 1]
      && (forall k :: 0 <= k < |ls| ==> st.min <= ls[k] <= st.max)
  {
    MinMaxAreSortedEnds(ls);
    var st := Summarize(total, ls);
    assert st.min == Min(ls) && st.max == Max(ls);
  }

  /**
   * On an ascending list a higher percentile with a higher sample threshold
   * never reports less, and every percentile lies between the two ends.
   */
  lemma PercentileMonotone(r: seq<real>, p1: nat, m1: nat, p2: nat, m2: nat)
    requires Sorted(r) && |r| > 0
    requires p1 <= p2 < 100 && m1 <= m2
    ensures r[0] <= Percentile(r, p1, m1) <= Percentile(r, p2, m2) <= r[|r| - 1]
  {
    var n := |r|;
    var k1 := if n >= m1 then PercentileIndex(n, p1) else n - 1;
    var k2 := if n >= m2 then PercentileIndex(n, p2) else n - 1;
    assert Percentile(r, p1, m1) == r[k1] && Percentile(r, p2, m2) == r[k2];
    if n >= m2 {
      assert n * p1 <= n * p2 by { MulMonotone(n, p1, p2); }
    }
    assert k1 <= k2;
  }

  lemma MulMonotone(n: nat, a: nat, b: nat)
    requires a <= b
    ensures n * a <= n * b
  {
    assert n * b == n * a + n * (b - a);
  }

  /** The percentiles lie between the minimum and the maximum, in ascending order. */
  lemma PercentilesOrdered(total: nat, ls: seq<real>)
    requires 0 < |ls| <= total && Sum(ls) != 0.0
    ensures var st := Summarize(total, ls);
      st.min <= st.p50 <= st.p95 <= st.p99 <= st.max
  {
    var r := Sort(ls);
    MinMaxAreSortedEnds(ls);
    PercentileMonotone(r, 50, 0, 95, P95MinSamples);
    PercentileMonotone(r, 95, P95MinSamples, 99, P99MinSamples);
  }

  /**
   * p50 is the sorted sample at floor(n / 2); p95 is the maximum below 20
   * samples and the sorted sample at floor(0.95 n) from 20 on; p99 likewise
   * with 100 samples and floor(0.99 n). PercentileIndex(n, p) is that floor.
   */
  lemma PercentileSelection(total: nat, ls: seq<real>)
    requires 0 < |ls| <= total && Sum(ls) != 0.0
    ensures var st, n, r := Summarize(total, ls), |ls|, Sort(ls);
      && |r| == n
      && st.p50 == r[PercentileIndex(n, 50)]
      && (n < P95MinSamples ==> st.p95 == st.max)
      && (n >= P95MinSamples ==> st.p95 == r[PercentileIndex(n, 95)])
      && (n < P99MinSamples ==> st.p99 == st.max)
      && (n >= P99MinSamples ==> st.p99 == r[PercentileIndex(n, 99)])
  {
    var st, r, n := Summarize(total, ls), Sort(ls), |ls|;
    MinMaxAreSortedEnds(ls);
    assert st.max == r[n - 1];
    assert st.p50 == Percentile(r, 50, 0);
    assert st.p95 == Percentile(r, 95, P95MinSamples);
    assert st.p99 == Percentile(r, 99, P99MinSamples);
  }

  /**
   * Below its sample threshold the percentile index already points at the
   * last sample, so the fallback to the maximum gives the same value the
   * index would.
   */
  lemma FallbackMatchesIndex(n: nat)
    requires 0 < n
    ensures n < P95MinSamples ==> PercentileIndex(n, 95) == n - 1
    ensures n < P99MinSamples ==> PercentileIndex(n, 99) == n - 1
  {
    var k95, k99 := PercentileIndex(n, 95), PercentileIndex(n, 99);
    if n < P95MinSamples {
      assert (n - 1) * 100 <= n * 95;
    }
    if n < P99MinSamples {
      assert (n - 1) * 100 <= n * 99;
    }
  }

  // ---------------------------------------------------------------------
  // What a percentile means: the rank of the reported sample

  /** How many samples are strictly below x. */
  function CountBelow(s: seq<real>, x: real): nat
  {
    if s == [] then 0 else (if s[0] < x then 1 else 0) + CountBelow(s[1..], x)
  }

  /** How many samples are at or below x. */
  function CountAtMost(s: seq<real>, x: real): nat
  {
    if s == [] then 0 else (if s[0] <= x then 1 else 0) + CountAtMost(s[1..], x)
  }

  lemma {:induction false} CountInsert(y: real, t: seq<real>, x: real)
    requires Sorted(t)
    ensures CountBelow(Insert(y, t), x) == (if y < x then 1 else 0) + CountBelow(t, x)
    ensures CountAtMost(Insert(y, t), x) == (if y <= x then 1 else 0) + CountAtMost(t, x)
  {
    if t != [] && y > t[0] {
      CountInsert(y, t[1..], x);
      var r := Insert(y, t);
      assert r == [t[0]] + Insert(y, t[1..]);
      assert r[1..] == Insert(y, t[1..]);
    } else {
      assert Insert(y, t)[1..] == t;
    }
  }

  /** Sorting changes no count. */
  lemma {:induction false} CountSort(s: seq<real>, x: real)
    ensures CountBelow(Sort(s), x) == CountBelow(s, x)
    ensures CountAtMost(Sort(s), x) == CountAtMost(s, x)
  {
    if s != [] {
      CountSort(s[1..], x);
      CountInsert(s[0], Sort(s[1..]), x);
    }
  }

  lemma {:induction false} CountBelowBound(r: seq<real>, x: real, k: nat)
    requires k <= |r|
    requires forall j :: k <= j < |r| ==> x <= r[j]
    ensures CountBelow(r, x) <= k
  {
    if r != [] {
      assert forall j :: (if k == 0 then 0 else k - 1) <= j < |r[1..]| ==> x <= r[1..][j] by {
        forall j | (if k == 0 then 0 else k - 1) <= j < |r[1..]|
          ensures x <= r[1..][j]
        {
          assert r[1..][j] == r[j + 1];
        }
      }
      CountBelowBound(r[1..], x, if k == 0 then 0 else k - 1);
    }
  }

  lemma {:induction false} CountAtMostBound(r: seq<real>, x: real, k: nat)
    requires k < |r|
    requires forall j :: 0 <= j <= k ==> r[j] <= x
    ensures k + 1 <= CountAtMost(r, x)
  {
    if k > 0 {
      assert forall j :: 0 <= j <= k - 1 ==> r[1..][j] <= x by {
        forall j | 0 <= j <= k - 1
          ensures r[1..][j] <= x
        {
          assert r[1..][j] == r[j + 1];
        }
      }
      CountAtMostBound(r[1..], x, k - 1);
    }
  }

  /**
   * The sorted sample at index floor(n * percent / 100) has at most
   * n * percent / 100 samples below it and more than that at or below it:
   * it is a percent-th percentile of the samples in the rank sense.
   */
  lemma PercentileRank(ls: seq<real>, percent: nat, v: real)
    requires 0 < |ls| && percent < 100
    requires |Sort(ls)| == |ls| && v == Sort(ls)[PercentileIndex(|ls|, percent)]
    ensures CountBelow(ls, v) * 100 <= |ls| * percent < CountAtMost(ls, v) * 100
  {
    var r, k := Sort(ls), PercentileIndex(|ls|, percent);
    CountSort(ls, v);
    SortedRank(r, k);
    RankFromIndex(CountBelow(ls, v), CountAtMost(ls, v), k, |ls|, percent);
  }

  /** In an ascending list, at most k elements lie below the k-th and at least k + 1 at or below it. */
  lemma SortedRank(r: seq<real>, k: nat)
    requires Sorted(r) && k < |r|
    ensures CountBelow(r, r[k]) <= k && k + 1 <= CountAtMost(r, r[k])
  {
    CountBelowBound(r, r[k], k);
    CountAtMostBound(r, r[k], k);
  }

  lemma RankFromIndex(below: nat, atMost: nat, k: nat, n: nat, percent: nat)
    requires below <= k && k + 1 <= atMost
    requires k * 100 <= n * percent < (k + 1) * 100
    ensures below * 100 <= n * percent < atMost * 100
  {
  }

  /**
   * A percentile with its fallback is a percentile in the rank sense
   * whenever the fallback lands on the index itself, as FallbackMatchesIndex
   * shows it does for the thresholds calculate_stats uses.
   */
  lemma SelectedPercentileRank(ls: seq<real>, percent: nat, minSamples: nat)
    requires 0 < |ls| && percent < 100
    requires |ls| < minSamples ==> PercentileIndex(|ls|, percent) == |ls| - 1
    ensures var v := Percentile(Sort(ls), percent, minSamples);
      CountBelow(ls, v) * 100 <= |ls| * percent < CountAtMost(ls, v) * 100
  {
    PercentileRank(ls, percent, Percentile(Sort(ls), percent, minSamples));
  }

  /** The p50, p95 and p99 of a report on samples ls are percentiles of ls in the rank sense. */
  lemma SummaryPercentileRanks(total: nat, ls: seq<real>)
    requires 0 < |ls| <= total && Sum(ls) != 0.0
    ensures var st := Summarize(total, ls);
      && CountBelow(ls, st.p50) * 100 <= |ls| * 50 < CountAtMost(ls, st.p50) * 100
      && CountBelow(ls, st.p95) * 100 <= |ls| * 95 < CountAtMost(ls, st.p95) * 100
      && CountBelow(ls, st.p99) * 100 <= |ls| * 99 < CountAtMost(ls, st.p99) * 100
  {
    FallbackMatchesIndex(|ls|);
    SelectedPercentileRank(ls, 50, 0);
    SelectedPercentileRank(ls, 95, P95MinSamples);
    SelectedPercentileRank(ls, 99, P99MinSamples);
  }

  /**
   * The reported p50, p95 and p99 are percentiles of the successful
   * latencies in the rank sense, the p95 and p99 fallbacks to the maximum
   * included: at most n * p / 100 samples lie below each and more than
   * n * p / 100 lie at or below it.
   */
  lemma ReportPercentileRanks(results: seq<RequestResult>)
    requires ThroughputDefined(results) && CalculateStats(results).Report?
    ensures var st, ls := CalculateStats(results), SuccessLatencies(results);
      && CountBelow(ls, st.p50) * 100 <= |ls| * 50 < CountAtMost(ls, st.p50) * 100
      && CountBelow(ls, st.p95) * 100 <= |ls| * 95 < CountAtMost(ls, st.p95) * 100
      && CountBelow(ls, st.p99) * 100 <= |ls| * 99 < CountAtMost(ls, st.p99) * 100
  {
    ReportIsSummary(results);
    SummaryPercentileRanks(|results|, SuccessLatencies(results));
  }

  /** With non-negative latencies and at least one success the throughput is positive. */
  lemma ThroughputPositive(successCount: nat, ls: seq<real>)
    requires successCount > 0 && Sum(ls) != 0.0
    requires forall k :: 0 <= k < |ls| ==> ls[k] >= 0.0
    ensures Throughput(successCount, ls) > 0.0
  {
    SumNonNegative(ls);
  }

  lemma QuotientPositive(a: real, b: real)
    requires a > 0.0 && b > 0.0
    ensures a / b > 0.0
  {
  }

  /** Every successful latency is one of the collected latencies. */
  lemma SuccessLatenciesNonNegative(results: seq<RequestResult>)
    requires forall i :: 0 <= i < |results| ==> results[i].latencyMs >= 0.0
    ensures forall k :: 0 <= k < |SuccessLatencies(results)| ==> SuccessLatencies(results)[k] >= 0.0
  {
    var ok := Successful(results);
    SuccessfulMultiset(results);
    forall k | 0 <= k < |ok|
      ensures ok[k].latencyMs >= 0.0
    {
      assert ok[k] in multiset(ok);
      assert ok[k] in multiset(results);
    }
  }

  lemma {:induction false} SumNonNegative(s: seq<real>)
    requires forall k :: 0 <= k < |s| ==> s[k] >= 0.0
    ensures Sum(s) >= 0.0
  {
    if s != [] {
      SumNonNegative(s[1..]);
    }
  }

  /** A run with at least one success is reported through Summarize over the successful latencies in collection order. */
  lemma ReportIsSummary(results: seq<RequestResult>)
    requires ThroughputDefined(results) && SuccessLatencies(results) != []
    ensures |SuccessLatencies(results)| <= |results|
    ensures CalculateStats(results) == Summarize(|results|, SuccessLatencies(results))
  {
  }

  /**
   * The reported min and max are successful latencies bounding all of
   * them, the percentiles climb from min to max, and the average lies
   * between min and max.
   */
  lemma ReportBounds(results: seq<RequestResult>)
    requires ThroughputDefined(results) && CalculateStats(results).Report?
    ensures var st, ls := CalculateStats(results), SuccessLatencies(results);
      && |ls| == st.success
      && st.min in ls && st.max in ls
      && (forall k :: 0 <= k < |ls| ==> st.min <= ls[k] <= st.max)
      && st.min <= st.p50 <= st.p95 <= st.p99 <= st.max
      && st.min <= st.avg <= st.max
  {
    var ls := SuccessLatencies(results);
    ReportIsSummary(results);
    ReportExtremes(|results|, ls);
    PercentilesOrdered(|results|, ls);
  }

  /** A failed result adds to the total and the errors and changes no other figure. */
  lemma FailedResultOnlyCounted(results: seq<RequestResult>, failed: RequestResult)
    requires !failed.success
    requires ThroughputDefined(results)
    ensures ThroughputDefined(results + [failed])
    ensures var before, after := CalculateStats(results), CalculateStats(results + [failed]);
      match before
      case NoSuccessfulRequests => after == NoSuccessfulRequests
      case Report(_, _, _, _, _, _, _, _, _, _) =>
        after == before.(total := before.total + 1, errors := before.errors + 1)
  {
    SuccessfulAppend(results, [failed]);
    assert Successful([failed]) == [];
    assert Successful(results + [failed]) == Successful(results);
  }

  lemma MinMaxPermutation(a: seq<real>, b: seq<real>)
    requires 0 < |a| && multiset(a) == multiset(b)
    ensures 0 < |b| && Min(a) == Min(b) && Max(a) == Max(b)
  {
    assert |a| == |multiset(a)| == |multiset(b)| == |b|;
    SortPermutationInvariant(a, b);
    MinMaxAreSortedEnds(a);
    MinMaxAreSortedEnds(b);
  }

  lemma MeanCongruent(a: seq<real>, b: seq<real>)
    requires 0 < |a| == |b| && Sum(a) == Sum(b)
    ensures Mean(a) == Mean(b)
  {
  }

  lemma ThroughputCongruent(c: nat, a: seq<real>, b: seq<real>)
    requires Sum(a) == Sum(b) != 0.0
    ensures Throughput(c, a) == Throughput(c, b)
  {
  }

  /** The report on latency samples does not depend on the order the samples were collected in. */
  lemma SummarizePermutation(total: nat, a: seq<real>, b: seq<real>)
    requires multiset(a) == multiset(b)
    requires 0 < |a| <= total && Sum(a) != 0.0
    requires 0 < |b| <= total && Sum(b) != 0.0
    ensures Summarize(total, a) == Summarize(total, b)
  {
    assert |a| == |multiset(a)| == |multiset(b)| == |b|;
    var sa, sb := Summarize(total, a), Summarize(total, b);
    SortPermutationInvariant(a, b);
    SumPermutationInvariant(a, b);
    MinMaxPermutation(a, b);
    assert sa.min == Min(a) && sb.min == Min(b) && sa.max == Max(a) && sb.max == Max(b);
    assert sa.avg == sb.avg by {
      MeanCongruent(a, b);
    }
    assert sa.throughput == sb.throughput by {
      ThroughputCongruent(|a|, a, b);
    }
    assert sa.p50 == sb.p50 && sa.p95 == sb.p95 && sa.p99 == sb.p99;
    assert sa.total == sb.total && sa.success == sb.success && sa.errors == sb.errors;
  }

  /** Reordering the results reorders the successful latencies and nothing more. */
  lemma SuccessLatenciesPermutation(a: seq<RequestResult>, b: seq<RequestResult>)
    requires multiset(a) == multiset(b)
    ensures multiset(SuccessLatencies(a)) == multiset(SuccessLatencies(b))
  {
    SuccessfulMultiset(a);
    SuccessfulMultiset(b);
    assert multiset(Successful(a)) == multiset(Successful(b));
    LatenciesPermutation(Successful(a), Successful(b));
  }

  /**
   * The report depends only on which results were collected, not on the
   * order they completed in: results gathered in completion order give the
   * same figures as the same results in launch order, and the throughput
   * is defined for one order exactly when it is for the other.
   */
  lemma CompletionOrderIrrelevant(a: seq<RequestResult>, b: seq<RequestResult>)
    requires multiset(a) == multiset(b)
    requires ThroughputDefined(a)
    ensures ThroughputDefined(b)
    ensures CalculateStats(a) == CalculateStats(b)
  {
    assert |a| == |multiset(a)| == |multiset(b)| == |b|;
    var la, lb := SuccessLatencies(a), SuccessLatencies(b);
    SuccessLatenciesPermutation(a, b);
    assert |la| == |multiset(la)| == |multiset(lb)| == |lb|;
    SumPermutationInvariant(la, lb);
    if la != [] {
      SummarizePermutation(|a|, la, lb);
    }
  }

  /** The aggregate-time throughput of successes taking 100, 200 and 300 ms is 5 per second. */
  lemma ThroughputExample()
    ensures var results := [RequestResult(100.0, true, None), RequestResult(200.0, true, None),
                            RequestResult(300.0, true, None)];
      ThroughputDefined(results) && CalculateStats(results).throughput == 5.0
  {
    var results := [RequestResult(100.0, true, None), RequestResult(200.0, true, None),
                    RequestResult(300.0, true, None)];
    assert results[1..] == [RequestResult(200.0, true, None), RequestResult(300.0, true, None)];
    assert results[2..] == [RequestResult(300.0, true, None)];
    assert Successful(results) == results;
    var ls := SuccessLatencies(results);
    assert ls == [100.0, 200.0, 300.0];
    assert Sum(ls) == 600.0;
  }
}
