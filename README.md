# typix-benchmark: the statistics and ramp logic, modelled in Dafny

`typix-benchmark/benchmark.py` is a latency and throughput benchmark for a
chat-completion endpoint that corrects spelling and grammar. Its core, and
what this project models, is:

- **Result classification** (`make_request`). One call becomes a
  `RequestResult`. A 200 response is a success with no error. Any other
  status is a failure with the error text `HTTP <code>`. A raised exception
  is a failure whose error text is the exception's message. The latency is
  always recorded.
- **The statistics engine** (`calculate_stats`). It keeps the successful
  results and their latencies in collection order. With no successes it
  returns the sentinel "no successful requests". Otherwise it reports:
  - total, success and error counts;
  - min, max and mean latency;
  - p50 as the sorted sample at floor(0.5 n);
  - p95 and p99 as the sorted samples at floor(0.95 n) and floor(0.99 n), but only from 20 and 100 samples on; below that they fall back to the maximum. Below those thresholds floor(0.95 n) and floor(0.99 n) already are n - 1, the index of the maximum, so the fallback never changes the reported value (`Stats.FallbackMatchesIndex`);
  - the aggregate-time throughput: successes divided by the summed latency in seconds.
- **The corpus rotation**. Request i is sent sentence `i mod 10` of the fixed
  ten-sentence corpus.
- **The ramp sweep** (`run_ramp_test`):
  - It runs concurrency levels 10, 20, 30, 40 and 50 in order, with five requests per unit of concurrency.
  - It computes each stage's statistics.
  - It builds the summary table. Sentinel stages are skipped. A row is OK when p99 < 800 ms and DEGRADED otherwise.
  - It reports the first stage whose p99 reaches 800 ms as the breaking point, recommending ten less. If no stage does, it reports that all passed.

Modules:

| Module | File | Contents |
|---|---|---|
| `Wrappers` | `wrappers.dfy` | `Option` |
| `Decimal` | `decimal.dfy` | Decimal rendering and parsing of integers, used for the `HTTP <code>` text. |
| `Request` | `request.dfy` | `RequestResult`, the call outcome, `Classify`. |
| `Corpus` | `corpus.dfy` | The sentence corpus and the request-to-sentence plan. |
| `Sorting` | `sorting.dfy` | `sorted()` as an insertion sort, specified as the unique ascending permutation. |
| `Stats` | `stats.dfy` | `calculate_stats` and the properties of its report. |
| `Ramp` | `ramp.dfy` | The ramp sweep, its summary table and the breaking-point search, as methods with loop invariants proved against specification functions. |

The network, the clock and the concurrency are not modelled.
`Ramp.RunRamp` takes a function `trial(c, n)`. It stands for the results
the fixed-concurrency driver collected for concurrency `c` and `n` requests
on that run. Latencies are `real` numbers.

## Model

| member | source | states |
|---|---|---|
| Request.Classify | typix-benchmark/benchmark.py:73-83 | The result keeps the measured latency. It is a success exactly when the response had status 200. It has no error text exactly when it is a success. A raised exception's message becomes the error text. |
| Request.HttpError | typix-benchmark/benchmark.py:79 | The error text of a rejected response starts with `HTTP ` followed by the rendered code (HttpErrorRoundTrip: it reads back as exactly that code). |
| Request.HttpErrorRoundTrip | typix-benchmark/benchmark.py:79 | The `HTTP <code>` text of a rejected response reads back as exactly its status code. |
| Request.ClassifyRejectedResponse | typix-benchmark/benchmark.py:75-80 | A non-200 response is a failure. Its error text names its status code. |
| Request.ClassifyDistinguishesStatuses | typix-benchmark/benchmark.py:79 | Rejected responses with different status codes get different error texts. |
| Decimal.NatRoundTrip | typix-benchmark/benchmark.py:79 | Parsing the decimal rendering of a natural number gives it back. |
| Decimal.IntRoundTrip | typix-benchmark/benchmark.py:79 | Parsing the decimal rendering of any integer, negative ones included, gives that integer back. |
| Decimal.IntToStringInjective | typix-benchmark/benchmark.py:79 | Distinct integers render to distinct decimal texts. |
| Decimal.IntToString | typix-benchmark/benchmark.py:79 | The rendering of an integer is non-empty and starts with `-` exactly when the integer is negative (IntRoundTrip: parsing it gives the integer back). |
| Corpus.SentenceFor | typix-benchmark/benchmark.py:98 | Every request index is given a sentence of the corpus. |
| Corpus.SentencesDistinct | typix-benchmark/benchmark.py:29-40 | The ten corpus sentences are pairwise distinct. |
| Corpus.SameSentenceIff | typix-benchmark/benchmark.py:128-129 | Two requests get the same sentence if and only if their indices agree modulo the corpus size. |
| Corpus.SentenceForIndex | typix-benchmark/benchmark.py:128-129 | Request i gets sentence k if and only if i mod 10 = k, so the corpus is cycled through in order. |
| Corpus.PlanRequests | typix-benchmark/benchmark.py:127-130 | The task-creation loop assigns sentence `i mod 10` to each of requests 0 .. total-1, and every one is a corpus sentence. |
| Sorting.Insert | typix-benchmark/benchmark.py:149 | Inserting into an ascending list gives an ascending list with the same elements plus the new one. |
| Sorting.Sort | typix-benchmark/benchmark.py:149 | The sorted latencies are ascending and a permutation of the input. |
| Sorting.SortedUnique | typix-benchmark/benchmark.py:149 | Two ascending permutations of the same multiset are equal, so the sorted list is determined by its elements. |
| Sorting.SortPermutationInvariant | typix-benchmark/benchmark.py:149 | Inputs with the same elements sort to the same list. |
| Sorting.SortedBounds | typix-benchmark/benchmark.py:149 | The first sorted element bounds every input element from below, and the last bounds every one from above. |
| Stats.Successful | typix-benchmark/benchmark.py:143 | The successful subset is no longer than the results. |
| Stats.SuccessfulMultiset | typix-benchmark/benchmark.py:143 | The successful subset holds each successful result as often as the results do, and no failed one. |
| Stats.SuccessfulAppend | typix-benchmark/benchmark.py:143 | Filtering distributes over concatenation, keeping collection order. |
| Stats.NoSuccessIffEmpty | typix-benchmark/benchmark.py:146-147 | The successful subset is empty exactly when no result succeeded. |
| Stats.SuccessfulCount | typix-benchmark/benchmark.py:154 | The size of the successful subset is the number of successful results. |
| Stats.Latencies | typix-benchmark/benchmark.py:144 | One latency per result, position by position. |
| Stats.LatenciesAppend | typix-benchmark/benchmark.py:144 | Latency extraction distributes over concatenation. |
| Stats.LatenciesPermutation | typix-benchmark/benchmark.py:144 | Results with the same elements have latency lists with the same elements. |
| Stats.SuccessLatenciesPermutation | typix-benchmark/benchmark.py:143-144 | Reordering the results only reorders the successful latencies. |
| Stats.SuccessLatenciesNonNegative | typix-benchmark/benchmark.py:143-144 | If every latency is non-negative, so is every successful latency. |
| Stats.Min | typix-benchmark/benchmark.py:156 | The minimum is one of the samples and bounds all of them from below. |
| Stats.Max | typix-benchmark/benchmark.py:157 | The maximum is one of the samples and bounds all of them from above. |
| Stats.Mean | typix-benchmark/benchmark.py:158 | The mean of non-empty samples lies between their minimum and their maximum. |
| Stats.AverageBetween | typix-benchmark/benchmark.py:158 | The average of samples that all lie in [lo, hi] lies in [lo, hi]. |
| Stats.MinMaxAreSortedEnds | typix-benchmark/benchmark.py:156-157 | The minimum and maximum are the first and last sorted samples. |
| Stats.PercentileIndex | typix-benchmark/benchmark.py:159-161 | The percentile index k of n samples is in range and is the floor of n * p / 100: k * 100 <= n * p < (k + 1) * 100. |
| Stats.Percentile | typix-benchmark/benchmark.py:159-161 | The reported percentile is one of the sorted samples (PercentileRank, SelectedPercentileRank: it has the rank of a percentile). |
| Stats.PercentileRank | typix-benchmark/benchmark.py:159-161 | The sorted sample at index floor(n * p / 100) has at most n * p / 100 samples strictly below it and more than n * p / 100 at or below it, counted over the unsorted samples. |
| Stats.SortedRank | typix-benchmark/benchmark.py:149 | In an ascending list at most k elements lie below the k-th and at least k + 1 at or below it. |
| Stats.CountSort | typix-benchmark/benchmark.py:149 | Sorting changes neither the number of samples below a value nor the number at or below it. |
| Stats.SelectedPercentileRank | typix-benchmark/benchmark.py:160-161 | A percentile with a fallback to the maximum keeps that rank property whenever the fallback lands on the index itself. |
| Stats.SummaryPercentileRanks | typix-benchmark/benchmark.py:159-161 | The report's p50, p95 and p99 each have at most n * p / 100 samples below and more than n * p / 100 at or below, including on the fallback path. |
| Stats.ReportPercentileRanks | typix-benchmark/benchmark.py:143-161 | The same rank property for calculate_stats' p50, p95 and p99, counted over the successful latencies. |
| Stats.Summarize | typix-benchmark/benchmark.py:152-163 | The report of a run with successes says Report, with total as given, success equal to the number of latencies, and success + errors = total. |
| Stats.CalculateStats | typix-benchmark/benchmark.py:141-163 | The sentinel comes back exactly when no result succeeded. A report has total equal to the number of results, success equal to the number of successful results (at least one), and success + errors = total. |
| Stats.ReportBounds | typix-benchmark/benchmark.py:156-161 | In a report, min and max are successful latencies bounding all of them. The percentiles satisfy min <= p50 <= p95 <= p99 <= max, and min <= avg <= max. |
| Stats.ReportExtremes | typix-benchmark/benchmark.py:156-157 | Reported min and max are samples, bound every sample, and are the sorted ends. |
| Stats.PercentileMonotone | typix-benchmark/benchmark.py:159-161 | On an ascending list, a higher percentile with a higher sample threshold never reports less, and all lie between the ends. |
| Stats.PercentilesOrdered | typix-benchmark/benchmark.py:156-161 | The reported figures satisfy min <= p50 <= p95 <= p99 <= max. |
| Stats.PercentileSelection | typix-benchmark/benchmark.py:159-161 | p50 is the sorted sample at floor(0.5 n). p95 is the maximum below 20 samples, and the sorted sample at floor(0.95 n) from 20 on. p99 follows the same rule with 100 samples and floor(0.99 n). |
| Stats.FallbackMatchesIndex | typix-benchmark/benchmark.py:160-161 | Below 20 (resp. 100) samples, floor(0.95 n) (resp. floor(0.99 n)) already is the last index, so the fallback never changes the value. |
| Stats.ThroughputPositive | typix-benchmark/benchmark.py:162 | With at least one success and non-negative latencies of non-zero sum, throughput is positive. |
| Stats.Throughput | typix-benchmark/benchmark.py:162 | Throughput is zero with no successes, and positive with successes and a positive summed latency. |
| Stats.ThroughputExample | typix-benchmark/benchmark.py:162 | Three successes of 100, 200 and 300 ms give a throughput of 5 per second. |
| Stats.SumPermutationInvariant | typix-benchmark/benchmark.py:158-162 | The summed latency does not depend on sample order. |
| Stats.FailedResultOnlyCounted | typix-benchmark/benchmark.py:152-163 | Adding a failed result leaves the sentinel unchanged. Otherwise it raises total and errors by one and changes no other figure. |
| Stats.SummarizePermutation | typix-benchmark/benchmark.py:149-162 | The report on latency samples does not depend on their order. |
| Stats.CompletionOrderIrrelevant | typix-benchmark/benchmark.py:133-135 | Results collected in completion order give the same statistics as the same results in any other order, and the throughput is defined for either order once it is for one. |
| Ramp.Stage | typix-benchmark/benchmark.py:204-207 | A stage carries its concurrency, and a stage that reports counts exactly the 5 × c requests it sent. |
| Ramp.RunStage | typix-benchmark/benchmark.py:204-207 | One loop iteration: the stage's results, their statistics, tagged with the concurrency, equal to Stage; a reporting stage has total 5 × c. |
| Ramp.RunStages | typix-benchmark/benchmark.py:200-207 | The stage loop yields one stage per level, in order, stage k being Stage at level k. |
| Ramp.RunRamp | typix-benchmark/benchmark.py:200-242 | Stage k is run at level k of 10, 20, 30, 40, 50 with 5 × that many requests, and carries that level and the statistics of its results. A stage that reports has total = 5 × its concurrency. The summary is the table of those stages, and the verdict is the first breach among them. |
| Ramp.RampStagesAscending | typix-benchmark/benchmark.py:202 | The summary rows of the sweep are in strictly ascending concurrency. |
| Ramp.BuildSummary | typix-benchmark/benchmark.py:221-231 | The summary loop produces exactly the table Summary: one row per reporting stage, in order, with sentinel stages skipped. |
| Ramp.SummaryRowsFromReports | typix-benchmark/benchmark.py:221-231 | The table has no more rows than stages. Every row is built from a stage that produced a report. A row is OK exactly when its p99 is below 800 ms. |
| Ramp.SummaryCoversReports | typix-benchmark/benchmark.py:221-225 | Every stage that produced a report has its row in the table. |
| Ramp.SummaryAscending | typix-benchmark/benchmark.py:221-231 | Stages in ascending concurrency give rows in ascending concurrency. |
| Ramp.FindBreakingPoint | typix-benchmark/benchmark.py:236-242 | The search loop, with its early exit, returns the first-breach verdict. |
| Ramp.FirstBreachAt | typix-benchmark/benchmark.py:236-240 | A stage that produced a report with p99 >= 800 ms, preceded by no such stage, is the breaking point. The recommended maximum is its concurrency minus 10. |
| Ramp.AllPassedIff | typix-benchmark/benchmark.py:236-242 | "All passed" is reported if and only if no reporting stage has p99 >= 800 ms. |
| Ramp.BreakingPointWitness | typix-benchmark/benchmark.py:236-240 | A reported breaking point is a reporting stage (never a sentinel one) with p99 >= 800 ms and no earlier breach. The recommendation is that concurrency minus 10. |
| Ramp.VerdictMatchesSummary | typix-benchmark/benchmark.py:221-242 | The verdict equals the first DEGRADED row of the summary table, or "all passed" if every row is OK. |
| Ramp.BreakingExample | typix-benchmark/benchmark.py:236-239 | Stages at 10..50 with p99 of 200, 300, 400, 850 and 900 ms break at 40, recommending 30. |

## Left out

- **The HTTP call.** The request payload, the endpoint and model constants, the 30 s timeout and the `--url` override are I/O.
  - `Classify` takes the outcome (a status code or an exception message) as input.
- **The clock.** `time.perf_counter` is left out; the measured latency is an input.
- **Concurrency.**
  - The asyncio semaphore that bounds in-flight requests is not modelled.
  - Task interleaving is not modelled.
  - The order `asyncio.as_completed` yields results in is not modelled. `Stats.CompletionOrderIrrelevant` shows that, in exact arithmetic, this order cannot change the statistics. Only the throughput's built-in float `sum` (line 162) can change in its last bits with the order; `statistics.mean` sums exactly and rounds once, so `avg` does not.
- **The drivers.**
  - The request-issuing parts of the single-shot and fixed-concurrency drivers are not modelled. Their sentence assignment is `Corpus.PlanRequests`. Inside the ramp sweep, the results of the fixed-concurrency driver (`test_concurrent`) are the `trial` parameter of `Ramp.RunRamp`. The results of the single-shot driver (`test_single_request`), and those of `test_concurrent` run on its own, do not pass through the ramp: `main` hands them straight to `calculate_stats` (benchmark.py:269-270, 275-276 and 285-286), which is `Stats.CalculateStats`.
  - `main` and its argument parsing are left out.
- **The cooldown.** The 2-second pause between ramp stages has no effect on the computed values.
- **Rendering.** Console output and rich tables are left out. This includes:
  - the `:.0f` and `:.1f` formatting;
  - the per-run PASS/FAIL column. It compares with `<=`, although its target labels read "<300ms", "<500ms" and "<800ms".
- **Floating point.** Latencies are exact reals, so rounding in the sum, the mean and the throughput division is not modelled.
- Stats.PercentileIndex: computes the percentile index as the exact floor of n * p / 100. The source computes `int(n * 0.95)` in binary floating point, which is not modelled.
- Stats.CalculateStats: requires that the successful latencies, when there are any, do not sum to zero.
  - The source raises ZeroDivisionError in that case and has no handled path for it.
  - The source's `if latencies else 0` fallback for throughput is unreachable, because the empty case has already returned the sentinel.
  - Latencies are not otherwise required to be non-negative. `Stats.ThroughputPositive` assumes non-negative latencies explicitly.
- Ramp.RunRamp: requires, for every stage, the same non-zero sum and one result per request sent. The source's fixed-concurrency driver gathers one result per task it creates.
- Request.Classify: the exception message is taken as given. What `str(e)` produces for each exception type is not modelled.
