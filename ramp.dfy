/**
 * The ramp sweep (benchmark.py, run_ramp_test): one fixed-concurrency run per
 * level 10, 20, 30, 40, 50 with five requests per unit of concurrency, the
 * summary table of the stages that produced a report, and the search for the
 * first stage whose p99 latency reaches 800 ms.
 *
 * The requests of a stage are not modelled: `trial(c, n)` stands for the
 * results that the fixed-concurrency driver collected for concurrency c and
 * n requests on this run. Cooldown pauses and rendering are not modelled.
 */
module Ramp {
  import opened Request
  import opened Stats

  /** The concurrency levels of the sweep, in the order they run. */
  const RampLevels: seq<nat> := [10, 20, 30, 40, 50]

  /** Each stage sends this many requests per unit of concurrency. */
  const RequestsPerLevelUnit: nat := 5

  /** A stage whose p99 latency reaches this many milliseconds is degraded. */
  const BreakingP99Ms: real := 800.0

  /** The recommended maximum sits this far below the breaking point. */
  const SafetyMargin: int := 10

  /** A stage's statistics together with the concurrency they were measured at. */
  datatype StageStats = StageStats(concurrency: nat, stats: RunStats)

  /** One row of the ramp summary table; ok is the OK / DEGRADED status. */
  datatype SummaryRow = SummaryRow(concurrency: nat, p50: real, p99: real, throughput: real, ok: bool)

  /** The closing message of the sweep. */
  datatype Verdict =
    | BreakingPoint(concurrency: nat, recommendedMax: int)
    | AllPassed

  /** A stage that produced a report and whose p99 reached the threshold. */
  predicate Breaches(s: StageStats)
  {
    s.stats.Report? && s.stats.p99 >= BreakingP99Ms
  }

  /** The verdict for stages examined in order: the first breaching stage, if any. */
  function FirstBreach(stages: seq<StageStats>): Verdict
  {
    if stages == [] then AllPassed
    else if Breaches(stages[0]) then
      BreakingPoint(stages[0].concurrency, stages[0].concurrency - SafetyMargin)
    else FirstBreach(stages[1..])
  }

  function RowOf(s: StageStats): SummaryRow
    requires s.stats.Report?
  {
    SummaryRow(s.concurrency, s.stats.p50, s.stats.p99, s.stats.throughput, s.stats.p99 < BreakingP99Ms)
  }

  /** The summary table: one row per stage that produced a report, sentinel stages skipped. */
  function Summary(stages: seq<StageStats>): seq<SummaryRow>
  {
    if stages == [] then []
    else if stages[0].stats.Report? then [RowOf(stages[0])] + Summary(stages[1..])
    else Summary(stages[1..])
  }

  /** The verdict read off the summary table: the first DEGRADED row, if any. */
  function FirstDegraded(rows: seq<SummaryRow>): Verdict
  {
    if rows == [] then AllPassed
    else if !rows[0].ok then BreakingPoint(rows[0].concurrency, rows[0].concurrency - SafetyMargin)
    else FirstDegraded(rows[1..])
  }

  // ---------------------------------------------------------------------
  // The breaking-point rule

  /** A breaching stage preceded only by stages that do not breach is the breaking point. */
  lemma {:induction false} FirstBreachAt(stages: seq<StageStats>, k: nat)
    requires k < |stages| && Breaches(stages[k])
    requires forall j :: 0 <= j < k ==> !Breaches(stages[j])
    ensures FirstBreach(stages) == BreakingPoint(stages[k].concurrency, stages[k].concurrency - SafetyMargin)
  {
    if k > 0 {
      assert !Breaches(stages[0]);
      FirstBreachAt(stages[1..], k - 1);
    }
  }

  /** "All passed" is reported exactly when no stage breaches. */
  lemma {:induction false} AllPassedIff(stages: seq<StageStats>)
    ensures FirstBreach(stages) == AllPassed <==> forall k :: 0 <= k < |stages| ==> !Breaches(stages[k])
  {
    if stages != [] {
      AllPassedIff(stages[1..]);
      if !Breaches(stages[0]) {
        assert forall k :: 1 <= k < |stages| ==> stages[k] == stages[1..][k - 1];
      }
    }
  }

  /**
   * A reported breaking point is a stage that produced a report (never a
   * sentinel stage) with p99 at or above the threshold, no earlier stage
   * breaches, and the recommendation is ten below its concurrency.
   */
  lemma {:induction false} BreakingPointWitness(stages: seq<StageStats>)
    requires FirstBreach(stages).BreakingPoint?
    ensures exists k :: (0 <= k < |stages|
      && stages[k].stats.Report? && stages[k].stats.p99 >= BreakingP99Ms
      && (forall j :: 0 <= j < k ==> !Breaches(stages[j]))
      && FirstBreach(stages).concurrency == stages[k].concurrency
      && FirstBreach(stages).recommendedMax == stages[k].concurrency - SafetyMargin)
  {
    if Breaches(stages[0]) {
      assert stages[0].stats.Report? && stages[0].stats.p99 >= BreakingP99Ms;
    } else {
      BreakingPointWitness(stages[1..]);
      var k :| 0 <= k < |stages[1..]|
        && stages[1..][k].stats.Report? && stages[1..][k].stats.p99 >= BreakingP99Ms
        && (forall j :: 0 <= j < k ==> !Breaches(stages[1..][j]))
        && FirstBreach(stages[1..]).concurrency == stages[1..][k].concurrency
        && FirstBreach(stages[1..]).recommendedMax == stages[1..][k].concurrency - SafetyMargin;
      assert forall j :: 1 <= j < k + 1 ==> stages[j] == stages[1..][j - 1];
      assert stages[k + 1] == stages[1..][k];
    }
  }

  /** The verdict agrees with the summary table: the breaking point is its first DEGRADED row. */
  lemma {:induction false} VerdictMatchesSummary(stages: seq<StageStats>)
    ensures FirstBreach(stages) == FirstDegraded(Summary(stages))
  {
    if stages != [] {
      VerdictMatchesSummary(stages[1..]);
      if stages[0].stats.Report? {
        assert Summary(stages) == [RowOf(stages[0])] + Summary(stages[1..]);
        assert (Summary(stages))[1..] == Summary(stages[1..]);
      } else {
        assert Summary(stages) == Summary(stages[1..]);
      }
    }
  }

  /** A sweep whose p99 values are 200, 300, 400, 850 and 900 ms breaks at 40, recommending 30. */
  lemma BreakingExample(stages: seq<StageStats>)
    requires |stages| == |RampLevels|
    requires forall k :: 0 <= k < |stages| ==> stages[k].concurrency == RampLevels[k] && stages[k].stats.Report?
    requires stages[0].stats.p99 == 200.0 && stages[1].stats.p99 == 300.0 && stages[2].stats.p99 == 400.0
    requires stages[3].stats.p99 == 850.0 && stages[4].stats.p99 == 900.0
    ensures FirstBreach(stages) == BreakingPoint(40, 30)
  {
    assert forall j :: 0 <= j < 3 ==> !Breaches(stages[j]);
    FirstBreachAt(stages, 3);
  }

  // ---------------------------------------------------------------------
  // The summary table

  lemma {:induction false} SummaryAppend(a: seq<StageStats>, b: seq<StageStats>)
    ensures Summary(a + b) == Summary(a) + Summary(b)
  {
    if a == [] {
      assert a + b == b;
    } else {
      assert (a + b)[0] == a[0] && (a + b)[1..] == a[1..] + b;
      SummaryAppend(a[1..], b);
      if a[0].stats.Report? {
        assert Summary(a + b) == [RowOf(a[0])] + Summary(a[1..] + b);
        assert Summary(a) == [RowOf(a[0])] + Summary(a[1..]);
      } else {
        assert Summary(a + b) == Summary(a[1..] + b);
        assert Summary(a) == Summary(a[1..]);
      }
    }
  }

  /** The row was produced from some stage of the sweep that produced a report. */
  predicate ComesFromReport(row: SummaryRow, stages: seq<StageStats>)
  {
    exists k :: 0 <= k < |stages| && stages[k].stats.Report? && row == RowOf(stages[k])
  }

  /** Every row of the summary comes from a stage that produced a report, and says OK exactly when its p99 is below 800 ms. */
  lemma {:induction false} SummaryRowsFromReports(stages: seq<StageStats>)
    ensures |Summary(stages)| <= |stages|
    ensures forall i :: 0 <= i < |Summary(stages)| ==> ComesFromReport(Summary(stages)[i], stages)
    ensures forall i :: 0 <= i < |Summary(stages)| ==> (Summary(stages)[i].ok <==> Summary(stages)[i].p99 < BreakingP99Ms)
  {
    if stages != [] {
      SummaryRowsFromReports(stages[1..]);
      var rows, rest := Summary(stages), Summary(stages[1..]);
      forall i | 0 <= i < |rest|
        ensures ComesFromReport(rest[i], stages)
      {
        assert ComesFromReport(rest[i], stages[1..]);
        var k :| 0 <= k < |stages[1..]| && stages[1..][k].stats.Report? && rest[i] == RowOf(stages[1..][k]);
        assert stages[k + 1] == stages[1..][k];
      }
      if stages[0].stats.Report? {
        assert rows == [RowOf(stages[0])] + rest;
        assert ComesFromReport(rows[0], stages) by {
          assert stages[0].stats.Report? && rows[0] == RowOf(stages[0]);
        }
        assert forall i :: 1 <= i < |rows| ==> rows[i] == rest[i - 1];
      } else {
        assert rows == rest;
      }
    }
  }

  /** Every stage that produced a report has its row in the summary; sentinel stages have none. */
  lemma {:induction false} SummaryCoversReports(stages: seq<StageStats>, k: nat)
    requires k < |stages| && stages[k].stats.Report?
    ensures RowOf(stages[k]) in Summary(stages)
  {
    if k == 0 {
      assert Summary(stages)[0] == RowOf(stages[0]);
    } else {
      SummaryCoversReports(stages[1..], k - 1);
      assert stages[1..][k - 1] == stages[k];
    }
  }

  /** With stages in ascending concurrency, the summary rows are in ascending concurrency too. */
  lemma {:induction false} SummaryAscending(stages: seq<StageStats>)
    requires forall i, j :: 0 <= i < j < |stages| ==> stages[i].concurrency < stages[j].concurrency
    ensures forall i, j :: 0 <= i < j < |Summary(stages)| ==> Summary(stages)[i].concurrency < Summary(stages)[j].concurrency
  {
    if stages != [] {
      var rest := Summary(stages[1..]);
      SummaryAscending(stages[1..]);
      SummaryRowsFromReports(stages[1..]);
      forall j | 0 <= j < |rest|
        ensures stages[0].concurrency < rest[j].concurrency
      {
        assert ComesFromReport(rest[j], stages[1..]);
        var k :| 0 <= k < |stages[1..]| && stages[1..][k].stats.Report? && rest[j] == RowOf(stages[1..][k]);
        assert stages[1..][k] == stages[k + 1];
      }
      var rows := Summary(stages);
      if stages[0].stats.Report? {
        assert rows == [RowOf(stages[0])] + rest;
        forall i, j | 0 <= i < j < |rows|
          ensures rows[i].concurrency < rows[j].concurrency
        {
          assert rows[j] == rest[j - 1];
          if i > 0 {
            assert rows[i] == rest[i - 1];
          }
        }
      } else {
        assert rows == rest;
      }
    }
  }

  // ---------------------------------------------------------------------
  // The driver

  /** The summary loop: one row per stage that produced a report, sentinel stages skipped. */
  method BuildSummary(allStats: seq<StageStats>) returns (rows: seq<SummaryRow>)
    ensures rows == Summary(allStats)
  {
    rows := [];
    var i := 0;
    while i < |allStats|
      invariant 0 <= i <= |allStats|
      invariant rows == Summary(allStats[..i])
    {
      var s := allStats[i];
      assert allStats[..i + 1] == allStats[..i] + [s];
      SummaryAppend(allStats[..i], [s]);
      if s.stats.Report? {
        rows := rows + [SummaryRow(s.concurrency, s.stats.p50, s.stats.p99, s.stats.throughput, s.stats.p99 < BreakingP99Ms)];
      }
      i := i + 1;
    }
    assert allStats[..i] == allStats;
  }

  /** The breaking-point search: stop at the first reporting stage whose p99 reaches 800 ms. */
  method FindBreakingPoint(allStats: seq<StageStats>) returns (verdict: Verdict)
    ensures verdict == FirstBreach(allStats)
  {
    var i := 0;
    while i < |allStats|
      invariant 0 <= i <= |allStats|
      invariant forall j :: 0 <= j < i ==> !Breaches(allStats[j])
    {
      var s := allStats[i];
      if s.stats.Report? && s.stats.p99 >= BreakingP99Ms {
        FirstBreachAt(allStats, i);
        return BreakingPoint(s.concurrency, s.concurrency - SafetyMargin);
      }
      i := i + 1;
    }
    AllPassedIff(allStats);
    verdict := AllPassed;
  }

  /** The requests of one stage: five per unit of concurrency. */
  function StageRequests(concurrency: nat): nat
  {
    concurrency * RequestsPerLevelUnit
  }

  /**
   * What the fixed-concurrency driver guarantees of the results of one
   * stage: one result per request sent, and a throughput that is defined.
   */
  predicate StageResultsWellFormed(trial: (nat, nat) -> seq<RequestResult>, concurrency: nat)
  {
    var results := trial(concurrency, StageRequests(concurrency));
    |results| == StageRequests(concurrency) && ThroughputDefined(results)
  }

  /** One stage of the sweep: the statistics of its results, tagged with its concurrency. */
  function Stage(trial: (nat, nat) -> seq<RequestResult>, concurrency: nat): (s: StageStats)
    requires StageResultsWellFormed(trial, concurrency)
    ensures s.concurrency == concurrency
    ensures s.stats.Report? ==> s.stats.total == StageRequests(concurrency)
  {
    StageStats(concurrency, CalculateStats(trial(concurrency, StageRequests(concurrency))))
  }

  /**
   * One iteration of the stage loop: collect the stage's results, compute
   * their statistics, tag them with the concurrency. It computes exactly
   * what Stage specifies; it is a separate method only so that each
   * iteration's statistics are verified on their own rather than inside
   * the loop's proof, which keeps the loop cheap to verify.
   */
  method RunStage(trial: (nat, nat) -> seq<RequestResult>, concurrency: nat) returns (stage: StageStats)
    requires StageResultsWellFormed(trial, concurrency)
    ensures stage == Stage(trial, concurrency)
    ensures stage.stats.Report? ==> stage.stats.total == StageRequests(concurrency)
  {
    var results := trial(concurrency, StageRequests(concurrency));
    var stats := CalculateStats(results);
    stage := StageStats(concurrency, stats);
  }

  /** The stage loop: each level in the given order, its statistics tagged with its concurrency. */
  method RunStages(trial: (nat, nat) -> seq<RequestResult>, levels: seq<nat>) returns (allStats: seq<StageStats>)
    requires forall k :: 0 <= k < |levels| ==> StageResultsWellFormed(trial, levels[k])
    ensures |allStats| == |levels|
    ensures forall k :: 0 <= k < |levels| ==> allStats[k] == Stage(trial, levels[k])
  {
    allStats := [];
    for i := 0 to |levels|
      invariant |allStats| == i
      invariant forall k :: 0 <= k < i ==> allStats[k] == Stage(trial, levels[k])
    {
      var stage := RunStage(trial, levels[i]);
      ghost var before := allStats;
      allStats := allStats + [stage];
      assert forall k :: 0 <= k < i ==> allStats[k] == before[k];
      assert allStats[i] == stage;
    }
  }

  /**
   * run_ramp_test: run each level in ascending order with five requests per
   * unit of concurrency, compute each stage's statistics, then build the
   * summary and find the breaking point.
   */
  method RunRamp(trial: (nat, nat) -> seq<RequestResult>)
    returns (allStats: seq<StageStats>, rows: seq<SummaryRow>, verdict: Verdict)
    requires forall k :: 0 <= k < |RampLevels| ==> StageResultsWellFormed(trial, RampLevels[k])
    ensures |allStats| == |RampLevels|
    ensures forall k :: 0 <= k < |RampLevels| ==> allStats[k] == Stage(trial, RampLevels[k])
    ensures forall k :: 0 <= k < |RampLevels| ==>
      allStats[k].stats.Report? ==> allStats[k].stats.total == StageRequests(RampLevels[k])
    ensures rows == Summary(allStats)
    ensures verdict == FirstBreach(allStats)
  {
    allStats := RunStages(trial, RampLevels);
    rows := BuildSummary(allStats);
    verdict := FindBreakingPoint(allStats);
  }

  /** The sweep's levels are ascending, so its stages and summary rows are in ascending concurrency. */
  lemma RampStagesAscending(allStats: seq<StageStats>)
    requires |allStats| == |RampLevels|
    requires forall k :: 0 <= k < |RampLevels| ==> allStats[k].concurrency == RampLevels[k]
    ensures forall i, j :: 0 <= i < j < |Summary(allStats)| ==>
      Summary(allStats)[i].concurrency < Summary(allStats)[j].concurrency
  {
    assert forall i, j :: 0 <= i < j < |RampLevels| ==> RampLevels[i] < RampLevels[j];
    SummaryAscending(allStats);
  }
}
