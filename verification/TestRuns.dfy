/** The test runs as a whole, from the jobs' own runs to the printed table (src/threads.cpp, src/zofi.cpp). */
module TestRuns {
  import opened Outcomes
  import opened Scheduler
  import opened Injection
  import Stats = Statistics

  ghost predicate GoodInput(config: Config, input: Input) {
    forall n :: GoodAttempt(config, input.attempts(n))
  }

  /** The run of a job on this input is classified as `s`. */
  ghost predicate Reported(config: Config, input: Input, s: FtStatus) {
    ComesTo(config, input, 0, 0, Classified(s))
  }

  ghost predicate IsClassified(config: Config, input: Input) {
    exists s :: Reported(config, input, s)
  }

  /** All runs are classified. */
  ghost predicate AllClassified(config: Config, inputs: nat -> Input, testRuns: nat) {
    forall id :: 0 <= id < testRuns ==> IsClassified(config, inputs(id))
  }

  /** What a run under the options can report. */
  predicate Possible(config: Config, status: FtStatus) {
    && Reportable(status)
    && (status.Detected? ==> config.detectionExitCode > 0)
    && (status.Skipped? <==> config.noRedirect)
  }

  /**
    The job in its own process, which counts failed injections in its own copy of the
    counters.  It writes the status only if its run is classified: not if it is stuck, dies
    or gives up.
   */
  method ChildJobCode(stats: Stats.Statistics, config: Config, input: Input) returns (r: RunResult)
    requires stats.Valid() && GoodInput(config, input)
    ensures ComesTo(config, input, 0, 0, r)
    ensures r.Classified? ==> Possible(config, r.status)
  {
    hide ComesTo;
    var copy := new Stats.Statistics.Forked(stats);
    var kernel := new Injection.Kernel(input.stream, input.attempts, Expected(config));
    var tr := new Runner(kernel, config, copy);
    r := tr.RunAndWait(input.same);
    tr.Destroy();
  }

  /** What the jobs write, by id; ids that are not launched do not matter. */
  function Written(statuses: seq<FtStatus>): nat -> Payload {
    (id: nat) => TestResult(if id < |statuses| then statuses[id] else FtStatus.Masked)
  }

  lemma WrittenReports(statuses: seq<FtStatus>, config: Config)
    requires forall s :: s in statuses ==> Possible(config, s)
    ensures AllReport(TestJobs, Written(statuses))
  {
    forall id: nat ensures Reports(TestJobs, Written(statuses)(id)) {
      if id < |statuses| { assert statuses[id] in statuses; }
    }
  }

  /** A kind that none of the jobs reports, or all of them do. */
  lemma {:induction false} TallyUniform(ids: seq<nat>, result: nat -> Payload, k: Stats.Kind, all: bool)
    requires AllReport(TestJobs, result)
    requires forall id :: id in ids ==> Reports(TestJobs, result(id)) && (Stats.KindOf(result(id).status) == k <==> all)
    ensures Tally(ids, result, k) == if all then |ids| else 0
    decreases |ids|
  {
    if ids != [] {
      var n := |ids| - 1;
      assert ids[n] in ids;
      TallyUniform(ids[..n], result, k, all);
    }
  }

  /** No job reports a failed injection, nor a detection that is not enabled, and all or none report a skipped check. */
  lemma NeverTallied(statuses: seq<FtStatus>, config: Config)
    requires forall s :: s in statuses ==> Possible(config, s)
    ensures AllReport(TestJobs, Written(statuses))
    ensures var n, result := |statuses|, Written(statuses);
            && Tally(UpTo(n), result, Stats.Kind.InjFailed) == 0
            && (config.detectionExitCode <= 0 ==> Tally(UpTo(n), result, Stats.Kind.Detected) == 0)
            && Tally(UpTo(n), result, Stats.Kind.Skipped) == if config.noRedirect then n else 0
  {
    WrittenReports(statuses, config);
    var ids, result := UpTo(|statuses|), Written(statuses);
    forall id | id in ids ensures Reports(TestJobs, result(id)) && Possible(config, result(id).status) {
      assert result(id).status == statuses[id];
    }
    TallyUniform(ids, result, Stats.Kind.InjFailed, false);
    if config.detectionExitCode <= 0 { TallyUniform(ids, result, Stats.Kind.Detected, false); }
    TallyUniform(ids, result, Stats.Kind.Skipped, config.noRedirect);
  }

  /** How many of the statuses are `s`. */
  function HowMany(statuses: seq<FtStatus>, s: FtStatus): nat {
    if statuses == [] then 0
    else HowMany(statuses[..|statuses| - 1], s) + if statuses[|statuses| - 1] == s then 1 else 0
  }

  lemma {:induction false} TallyIsHowMany(statuses: seq<FtStatus>, n: nat, s: FtStatus, k: Stats.Kind)
    requires n <= |statuses| && AllReport(TestJobs, Written(statuses)) && !s.None? && k == Stats.KindOf(s)
    ensures Tally(UpTo(n), Written(statuses), k) == HowMany(statuses[..n], s)
    decreases n
  {
    if n > 0 {
      TallyIsHowMany(statuses, n - 1, s, k);
      assert UpTo(n)[..n - 1] == UpTo(n - 1);
      assert statuses[..n][..n - 1] == statuses[..n - 1];
      assert Reports(TestJobs, Written(statuses)(n - 1));
    }
  }

  /** Each status has the counter of its own name. */
  ghost predicate CountedByName(counts: Stats.Counts, statuses: seq<FtStatus>)
    requires Stats.HasCounters(counts)
  {
    && counts[Stats.Kind.Masked] == HowMany(statuses, FtStatus.Masked)
    && counts[Stats.Kind.Exception] == HowMany(statuses, FtStatus.Exception)
    && counts[Stats.Kind.InfExec] == HowMany(statuses, FtStatus.InfExec)
    && counts[Stats.Kind.Corrupted] == HowMany(statuses, FtStatus.Corrupted)
    && counts[Stats.Kind.Detected] == HowMany(statuses, FtStatus.Detected)
    && counts[Stats.Kind.InjFailed] == HowMany(statuses, FtStatus.InjFailed)
    && counts[Stats.Kind.Skipped] == HowMany(statuses, FtStatus.Skipped)
  }

  lemma TalliesByName(counts: Stats.Counts, statuses: seq<FtStatus>)
    requires AllReport(TestJobs, Written(statuses)) && Stats.HasCounters(counts)
    requires forall k :: k in Stats.COUNTERS ==> counts[k] == Tally(UpTo(|statuses|), Written(statuses), k)
    ensures CountedByName(counts, statuses)
  {
    hide Tally, HowMany, AllReport, Written;
    assert statuses[..|statuses|] == statuses;
    TallyIsHowMany(statuses, |statuses|, FtStatus.Masked, Stats.Kind.Masked);
    TallyIsHowMany(statuses, |statuses|, FtStatus.Exception, Stats.Kind.Exception);
    TallyIsHowMany(statuses, |statuses|, FtStatus.InfExec, Stats.Kind.InfExec);
    TallyIsHowMany(statuses, |statuses|, FtStatus.Corrupted, Stats.Kind.Corrupted);
    TallyIsHowMany(statuses, |statuses|, FtStatus.Detected, Stats.Kind.Detected);
    TallyIsHowMany(statuses, |statuses|, FtStatus.InjFailed, Stats.Kind.InjFailed);
    TallyIsHowMany(statuses, |statuses|, FtStatus.Skipped, Stats.Kind.Skipped);
  }

  /**
    The jobs run in processes of their own, so what they write does not depend on the order
    in which they run.  Stops at the first job that writes nothing.
   */
  method RunJobs(stats: Stats.Statistics, testRuns: nat, config: Config, inputs: nat -> Input)
    returns (statuses: seq<FtStatus>)
    requires stats.Valid() && forall id :: GoodInput(config, inputs(id))
    ensures forall s :: s in statuses ==> Possible(config, s)
    ensures |statuses| <= testRuns
    ensures forall id :: 0 <= id < |statuses| ==> Reported(config, inputs(id), statuses[id])
    ensures |statuses| == testRuns <==> AllClassified(config, inputs, testRuns)
  {
    hide Reported, Possible;
    statuses := [];
    for id := 0 to testRuns
      invariant |statuses| == id && forall s :: s in statuses ==> Possible(config, s)
      invariant forall k :: 0 <= k < id ==> Reported(config, inputs(k), statuses[k])
    {
      var r := ChildJobCode(stats, config, inputs(id));
      assert r.Classified? ==> Reported(config, inputs(id), r.status) by { ReportedByRun(config, inputs(id), r); }
      if !r.Classified? {
        NeverReported(config, inputs(id), r);
        return;
      }
      statuses := statuses + [r.status];
    }
    forall id | 0 <= id < testRuns ensures IsClassified(config, inputs(id)) {
      assert Reported(config, inputs(id), statuses[id]);
    }
  }

  lemma ReportedByRun(config: Config, input: Input, r: RunResult)
    requires ComesTo(config, input, 0, 0, r)
    ensures r.Classified? ==> Reported(config, input, r.status)
  {
  }

  lemma NeverReported(config: Config, input: Input, r: RunResult)
    requires ComesTo(config, input, 0, 0, r) && !r.Classified?
    ensures !IsClassified(config, input)
  {
    forall s ensures !Reported(config, input, s) {
      if Reported(config, input, s) { ComesToOne(config, input, 0, 0, r, Classified(s)); }
    }
  }

  /** The scheduler's part: every job's status is counted; `reported` unless some job writes nothing. */
  method CountAllTests(testRuns: nat, jobs: nat, config: Config, inputs: nat -> Input)
    returns (stats: Stats.Statistics, statuses: seq<FtStatus>, reported: bool)
    requires jobs >= 1 && testRuns < 0x1_0000_0000 && forall id :: GoodInput(config, inputs(id))
    ensures stats.Valid() && stats.Consistent() && AllReport(TestJobs, Written(statuses))
    ensures reported <==> AllClassified(config, inputs, testRuns)
    ensures reported ==> |statuses| == testRuns == stats.grandTotal
    ensures reported ==> forall id :: 0 <= id < testRuns ==> Reported(config, inputs(id), statuses[id])
    ensures reported ==>
              forall k :: k in Stats.COUNTERS ==> stats.counts[k] == Tally(UpTo(testRuns), Written(statuses), k)
    ensures reported ==> CountedByName(stats.counts, statuses)
    ensures reported ==>
              && stats.counts[Stats.Kind.InjFailed] == 0
              && (config.detectionExitCode <= 0 ==> stats.counts[Stats.Kind.Detected] == 0)
              && stats.counts[Stats.Kind.Skipped] == if config.noRedirect then testRuns else 0
  {
    hide Reported, AllClassified, Tally, AllReport, Written, Possible, CountedByName, Stats.Sum, Stats.CheckedSum;
    stats := new Stats.Statistics(testRuns);
    statuses := RunJobs(stats, testRuns, config, inputs);
    NeverTallied(statuses, config);
    reported := |statuses| == testRuns;
    if reported {
      RunScheduler(stats, testRuns, jobs, Written(statuses));
      TalliesByName(stats.counts, statuses);
    }
  }

  /** Runs the jobs with what they write on counters that are all zero. */
  method RunScheduler(stats: Stats.Statistics, testRuns: nat, jobs: nat, result: nat -> Payload)
    requires jobs >= 1 && testRuns < 0x1_0000_0000 && AllReport(TestJobs, result)
    requires stats.Valid() && stats.Consistent() && stats.grandTotal == 0
    requires forall k :: k in Stats.COUNTERS ==> stats.counts[k] == 0
    modifies stats
    ensures stats.Valid() && stats.Consistent() && stats.grandTotal == testRuns
    ensures forall k :: k in Stats.COUNTERS ==> stats.counts[k] == Tally(UpTo(testRuns), result, k)
  {
    hide Tally, Inv, AllReport, Stats.Sum, Stats.CheckedSum;
    var kernel := new Scheduler.Kernel();
    var testJS := new JobScheduler(kernel, stats, TestJobs, jobs, result);
    testJS.Run(testRuns);
  }

  /** The rows that are printed when no check was skipped, each with the number of statuses of its name. */
  function RowsByName(statuses: seq<FtStatus>, detectionExitCode: int): seq<(Stats.Kind, nat)> {
    [(Stats.Kind.Masked, HowMany(statuses, FtStatus.Masked)),
     (Stats.Kind.Exception, HowMany(statuses, FtStatus.Exception)),
     (Stats.Kind.InfExec, HowMany(statuses, FtStatus.InfExec)),
     (Stats.Kind.Corrupted, HowMany(statuses, FtStatus.Corrupted))] +
    if detectionExitCode != 0 then [(Stats.Kind.Detected, HowMany(statuses, FtStatus.Detected))] else []
  }

  lemma RowsAreByName(counts: Stats.Counts, statuses: seq<FtStatus>, detectionExitCode: int,
                      rows: seq<(Stats.Kind, nat)>)
    requires Stats.HasCounters(counts) && CountedByName(counts, statuses) && counts[Stats.Kind.Skipped] == 0
    requires |rows| == |Stats.RowsToPrint(counts, detectionExitCode)|
    requires forall i :: 0 <= i < |rows| ==>
               && rows[i].0 == Stats.RowsToPrint(counts, detectionExitCode)[i]
               && rows[i].0 in counts && rows[i].1 == counts[rows[i].0]
    ensures rows == RowsByName(statuses, detectionExitCode)
  {
    hide HowMany;
  }

  lemma SumByName(counts: Stats.Counts, statuses: seq<FtStatus>)
    requires Stats.HasCounters(counts) && CountedByName(counts, statuses)
    ensures HowMany(statuses, FtStatus.Masked) + HowMany(statuses, FtStatus.Exception) +
            HowMany(statuses, FtStatus.InfExec) + HowMany(statuses, FtStatus.Corrupted) +
            HowMany(statuses, FtStatus.Detected) == Stats.CheckedSum(counts)
  {
    hide HowMany;
  }

  /**
    For all options, all answers of the kernel to every job and every order in which the jobs
    finish: if all jobs report, either all runs or none are checked, and the printed table
    shows how many jobs reported each status by its name; the numbers add up to the number of
    runs, and no failed injection is counted here although the jobs count theirs.
   */
  method RunAllTests(testRuns: nat, jobs: nat, config: Config, inputs: nat -> Input)
    returns (stats: Stats.Statistics, statuses: seq<FtStatus>, rows: seq<(Stats.Kind, nat)>, reported: bool)
    requires jobs >= 1 && testRuns < 0x1_0000_0000 && forall id :: GoodInput(config, inputs(id))
    ensures stats.Valid()
    ensures reported <==> AllClassified(config, inputs, testRuns)
    ensures reported ==>
              |statuses| == testRuns &&
              forall id :: 0 <= id < testRuns ==> Reported(config, inputs(id), statuses[id])
    ensures reported ==>
              && Stats.Sum(stats.counts) == stats.grandTotal == testRuns
              && Stats.CheckedSum(stats.counts) == stats.totalInjOK == (if config.noRedirect then 0 else testRuns)
              && stats.counts[Stats.Kind.InjFailed] == 0
              && (rows == [] <==> config.noRedirect || testRuns == 0)
    ensures reported && rows != [] ==>
              rows == RowsByName(statuses, config.detectionExitCode)
    ensures reported && rows != [] ==>
              HowMany(statuses, FtStatus.Masked) + HowMany(statuses, FtStatus.Exception) +
              HowMany(statuses, FtStatus.InfExec) + HowMany(statuses, FtStatus.Corrupted) +
              HowMany(statuses, FtStatus.Detected) == testRuns
    ensures reported && rows != [] ==>
              && (forall k :: k in Stats.RowsToPrint(stats.counts, config.detectionExitCode) ==> k in stats.counts)
              && Stats.PrintedSum(stats.counts, Stats.RowsToPrint(stats.counts, config.detectionExitCode)) == testRuns
  {
    stats, statuses, reported := CountAllTests(testRuns, jobs, config, inputs);
    rows := [];
    if !reported { return; }
    Stats.PrintedRowsComplete(stats.counts, config.detectionExitCode);
    SumByName(stats.counts, statuses);
    hide Reported, AllClassified, Tally, AllReport, Written, HowMany, CountedByName, RowsByName, Stats.PrintedSum,
      Stats.RowsToPrint;
    rows := stats.Dump(config.detectionExitCode);
    if rows != [] { RowsAreByName(stats.counts, statuses, config.detectionExitCode, rows); }
  }
}
