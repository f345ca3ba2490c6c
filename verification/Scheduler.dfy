/**
  The parallel job scheduler (src/threads.cpp): a bounded pool of forked jobs, each with a pipe
  to report its result, that may finish in any order.

  The kernel is a class whose methods choose freely what the kernel may choose: fresh
  descriptors and process ids, which may be reused after they are released, and the job
  that finishes next.
 */
module Scheduler {
  import opened Outcomes
  import Stats = Statistics

  /** What a job writes to its pipe: the exit state of an original run or the status of a test run. */
  datatype Payload = OrigResult(state: ExitState) | TestResult(status: FtStatus)

  datatype PipeEnd = ReadEnd(pipe: nat) | WriteEnd(pipe: nat)

  /** A forked job and the pipe it inherited. */
  datatype Child = Child(id: nat, pipe: nat)

  /** The kernel's view: unreaped children, open pipe ends of the scheduler, pipe contents, ends closed so far. */
  datatype KernelState = KernelState(
    children: map<int, Child>,
    fds: map<int, PipeEnd>,
    content: map<nat, Payload>,
    pipes: nat,
    closed: multiset<PipeEnd>,
    peak: nat)

  const BOOT := KernelState(map[], map[], map[], 0, multiset{}, 0)

  lemma FreshNumber(s: set<int>, low: int) returns (x: int)
    ensures x >= low && x !in s
  {
    x := low;
    var rest := s;
    while x in s
      invariant x >= low
      invariant rest <= s && forall y :: y in s && y >= x ==> y in rest
      decreases |rest|
    {
      rest := rest - {x};
      x := x + 1;
    }
  }

  class Kernel {
    var s: KernelState

    constructor ()
      ensures s == BOOT
    {
      s := BOOT;
    }

    method Pipe() returns (r: int, w: int)
      modifies this
      ensures r != w && r !in old(s.fds) && w !in old(s.fds)
      ensures s == old(s).(fds := old(s.fds)[r := ReadEnd(old(s.pipes))][w := WriteEnd(old(s.pipes))],
                          pipes := old(s.pipes) + 1)
    {
      ghost var a := FreshNumber(s.fds.Keys, 0);
      ghost var b := FreshNumber(s.fds.Keys, a + 1);
      r, w :| r != w && r !in s.fds && w !in s.fds;
      s := s.(fds := s.fds[r := ReadEnd(s.pipes)][w := WriteEnd(s.pipes)], pipes := s.pipes + 1);
    }

    /** The child inherits the write end `w`; its process id may be one that was reaped before. */
    method Fork(id: nat, w: int) returns (pid: int)
      requires w in s.fds && s.fds[w].WriteEnd?
      modifies this
      ensures pid > 0 && pid !in old(s.children)
      ensures s == old(s).(children := old(s.children)[pid := Child(id, old(s.fds)[w].pipe)], peak := s.peak)
      ensures s.peak == if |s.children| > old(s.peak) then |s.children| else old(s.peak)
    {
      ghost var a := FreshNumber(s.children.Keys, 1);
      pid :| pid > 0 && pid !in s.children;
      var children := s.children[pid := Child(id, s.fds[w].pipe)];
      s := s.(children := children, peak := if |children| > s.peak then |children| else s.peak);
    }

    /** Some child has written its result and exited. */
    method WaitAny(result: nat -> Payload) returns (pid: int)
      requires exists p :: p in s.children
      modifies this
      ensures pid in old(s.children)
      ensures var c := old(s.children)[pid];
              s == old(s).(children := old(s.children) - {pid}, content := old(s.content)[c.pipe := result(c.id)])
    {
      pid :| pid in s.children;
      var c := s.children[pid];
      s := s.(children := s.children - {pid}, content := s.content[c.pipe := result(c.id)]);
    }

    method Read(fd: int) returns (p: Payload)
      requires fd in s.fds && s.fds[fd].ReadEnd? && s.fds[fd].pipe in s.content
      ensures p == s.content[s.fds[fd].pipe]
    {
      p := s.content[s.fds[fd].pipe];
    }

    method Close(fd: int)
      requires fd in s.fds
      modifies this
      ensures s == old(s).(fds := old(s.fds) - {fd}, closed := old(s.closed) + multiset{old(s.fds)[fd]})
    {
      s := s.(fds := s.fds - {fd}, closed := s.closed + multiset{s.fds[fd]});
    }
  }

  // ---------------------------------------------------------------- the invariant

  datatype JobData = JobData(pid: int, id: nat, readFd: int, writeFd: int)

  /** Each active job is an unreaped child and reads from the pipe its child writes to. */
  ghost predicate Linked(jobs: seq<JobData>, s: KernelState) {
    forall i :: 0 <= i < |jobs| ==>
      && jobs[i].pid in s.children && s.children[jobs[i].pid] == Child(jobs[i].id, jobs[i].id)
      && jobs[i].readFd in s.fds && s.fds[jobs[i].readFd] == ReadEnd(jobs[i].id)
  }

  ghost predicate Distinct(jobs: seq<JobData>) {
    forall i, j :: 0 <= i < j < |jobs| ==>
      jobs[i].pid != jobs[j].pid && jobs[i].id != jobs[j].id && jobs[i].readFd != jobs[j].readFd
  }

  /** Every unreaped child is an active job. */
  ghost predicate PidsCovered(jobs: seq<JobData>, s: KernelState) {
    |s.children| == |jobs| && forall p :: p in s.children ==> exists i :: 0 <= i < |jobs| && jobs[i].pid == p
  }

  /** No descriptor is open but the active jobs' read ends. */
  ghost predicate FdsCovered(jobs: seq<JobData>, s: KernelState) {
    forall f :: f in s.fds ==> exists i :: 0 <= i < |jobs| && jobs[i].readFd == f
  }

  /** Every end of every pipe so far is open, once, or has been closed, once. */
  ghost predicate EndsBalance(s: KernelState) {
    && (forall f, g :: f in s.fds && g in s.fds && s.fds[f] == s.fds[g] ==> f == g)
    && (forall f :: f in s.fds ==> s.fds[f].pipe < s.pipes)
    && (forall e: PipeEnd :: s.closed[e] == if e.pipe < s.pipes && !IsOpen(s, e) then 1 else 0)
  }

  ghost predicate IsOpen(s: KernelState, e: PipeEnd) {
    exists f :: f in s.fds && s.fds[f] == e
  }

  function Ids(jobs: seq<JobData>): seq<nat> {
    seq(|jobs|, i requires 0 <= i < |jobs| => jobs[i].id)
  }

  function UpTo(n: nat): seq<nat> {
    seq(n, i => i)
  }

  /** Launched ids are 0 to next - 1, each active or collected, once. */
  ghost predicate IdsBalance(jobs: seq<JobData>, collected: seq<nat>, next: nat) {
    multiset(collected) + multiset(Ids(jobs)) == multiset(UpTo(next))
  }

  ghost predicate Inv(jobs: seq<JobData>, s: KernelState, collected: seq<nat>) {
    && Linked(jobs, s) && Distinct(jobs) && PidsCovered(jobs, s) && FdsCovered(jobs, s)
    && EndsBalance(s) && IdsBalance(jobs, collected, s.pipes)
  }

  // ---------------------------------------------------------------- launching a job

  lemma LaunchLinks(jobs: seq<JobData>, s: KernelState, job: JobData, t: KernelState)
    requires Linked(jobs, s) && Distinct(jobs)
    requires job.readFd !in s.fds && job.pid !in s.children
    requires forall i :: 0 <= i < |jobs| ==> jobs[i].id != job.id
    requires t.fds == s.fds[job.readFd := ReadEnd(job.id)]
    requires t.children == s.children[job.pid := Child(job.id, job.id)]
    ensures Linked(jobs + [job], t) && Distinct(jobs + [job])
  {
  }

  lemma LaunchCovers(jobs: seq<JobData>, s: KernelState, job: JobData, t: KernelState)
    requires PidsCovered(jobs, s) && FdsCovered(jobs, s)
    requires job.pid !in s.children
    requires t.fds == s.fds[job.readFd := ReadEnd(job.id)]
    requires t.children == s.children[job.pid := Child(job.id, job.id)]
    ensures PidsCovered(jobs + [job], t) && FdsCovered(jobs + [job], t)
  {
    var jobs' := jobs + [job];
    forall p | p in t.children ensures exists i :: 0 <= i < |jobs'| && jobs'[i].pid == p {
      if p == job.pid { assert jobs'[|jobs|].pid == p; }
      else { var i :| 0 <= i < |jobs| && jobs[i].pid == p; assert jobs'[i].pid == p; }
    }
    forall f | f in t.fds ensures exists i :: 0 <= i < |jobs'| && jobs'[i].readFd == f {
      if f == job.readFd { assert jobs'[|jobs|].readFd == f; }
      else { var i :| 0 <= i < |jobs| && jobs[i].readFd == f; assert jobs'[i].readFd == f; }
    }
  }

  lemma LaunchEnds(s: KernelState, r: int, t: KernelState)
    requires EndsBalance(s) && r !in s.fds
    requires t.fds == s.fds[r := ReadEnd(s.pipes)] && t.pipes == s.pipes + 1
    requires t.closed == s.closed + multiset{WriteEnd(s.pipes)}
    ensures EndsBalance(t)
  {
    forall e: PipeEnd ensures IsOpen(t, e) <==> IsOpen(s, e) || e == ReadEnd(s.pipes) {
      if f :| f in s.fds && s.fds[f] == e { assert t.fds[f] == e; }
      if e == ReadEnd(s.pipes) { assert t.fds[r] == e; }
    }
  }

  lemma LaunchIds(jobs: seq<JobData>, collected: seq<nat>, job: JobData)
    requires IdsBalance(jobs, collected, job.id)
    ensures IdsBalance(jobs + [job], collected, job.id + 1)
    ensures forall i :: 0 <= i < |jobs| ==> jobs[i].id != job.id
  {
    assert UpTo(job.id + 1) == UpTo(job.id) + [job.id];
    assert Ids(jobs + [job]) == Ids(jobs) + [job.id];
    forall i | 0 <= i < |jobs| ensures jobs[i].id < job.id {
      assert Ids(jobs)[i] in multiset(Ids(jobs));
      assert jobs[i].id in multiset(UpTo(job.id));
    }
  }

  lemma LaunchKeepsInv(jobs: seq<JobData>, s: KernelState, collected: seq<nat>, job: JobData, t: KernelState)
    requires Inv(jobs, s, collected)
    requires job.readFd !in s.fds && job.pid !in s.children && job.id == s.pipes
    requires t.fds == s.fds[job.readFd := ReadEnd(s.pipes)] && t.pipes == s.pipes + 1
    requires t.children == s.children[job.pid := Child(s.pipes, s.pipes)]
    requires t.closed == s.closed + multiset{WriteEnd(s.pipes)}
    ensures Inv(jobs + [job], t, collected)
  {
    hide Linked, Distinct, PidsCovered, FdsCovered, EndsBalance, IdsBalance;
    LaunchIds(jobs, collected, job);
    LaunchLinks(jobs, s, job, t);
    LaunchCovers(jobs, s, job, t);
    LaunchEnds(s, job.readFd, t);
  }

  // ---------------------------------------------------------------- collecting a job

  function Without(jobs: seq<JobData>, i: nat): seq<JobData>
    requires i < |jobs|
  {
    jobs[..i] + jobs[i + 1..]
  }

  lemma CollectLinks(jobs: seq<JobData>, s: KernelState, i: nat, t: KernelState)
    requires Linked(jobs, s) && Distinct(jobs) && i < |jobs|
    requires t.children == s.children - {jobs[i].pid} && t.fds == s.fds - {jobs[i].readFd}
    ensures Linked(Without(jobs, i), t) && Distinct(Without(jobs, i))
  {
    var left := Without(jobs, i);
    assert forall k :: 0 <= k < |left| ==> left[k] == if k < i then jobs[k] else jobs[k + 1];
  }

  lemma WithoutAt(jobs: seq<JobData>, i: nat, k: nat)
    requires i < |jobs| && k < |jobs| && k != i
    ensures var l := if k < i then k else k - 1; l < |Without(jobs, i)| && Without(jobs, i)[l] == jobs[k]
  {
  }

  lemma CollectPids(jobs: seq<JobData>, s: KernelState, i: nat, t: KernelState)
    requires PidsCovered(jobs, s) && i < |jobs| && jobs[i].pid in s.children
    requires t.children == s.children - {jobs[i].pid}
    ensures PidsCovered(Without(jobs, i), t)
  {
    hide Without;
    assert |t.children| == |jobs| - 1 by { assert t.children.Keys == s.children.Keys - {jobs[i].pid}; }
    WithoutSize(jobs, i);
    forall p | p in t.children ensures exists k :: 0 <= k < |Without(jobs, i)| && Without(jobs, i)[k].pid == p {
      var k :| 0 <= k < |jobs| && jobs[k].pid == p;
      WithoutAt(jobs, i, k);
    }
  }

  lemma WithoutSize(jobs: seq<JobData>, i: nat)
    requires i < |jobs|
    ensures |Without(jobs, i)| == |jobs| - 1
  {
  }

  lemma CollectFds(jobs: seq<JobData>, s: KernelState, i: nat, t: KernelState)
    requires FdsCovered(jobs, s) && i < |jobs|
    requires t.fds == s.fds - {jobs[i].readFd}
    ensures FdsCovered(Without(jobs, i), t)
  {
    hide Without;
    forall f | f in t.fds ensures exists k :: 0 <= k < |Without(jobs, i)| && Without(jobs, i)[k].readFd == f {
      var k :| 0 <= k < |jobs| && jobs[k].readFd == f;
      WithoutAt(jobs, i, k);
    }
  }

  lemma CollectEnds(s: KernelState, r: int, t: KernelState)
    requires EndsBalance(s) && r in s.fds
    requires t.fds == s.fds - {r} && t.pipes == s.pipes && t.closed == s.closed + multiset{s.fds[r]}
    ensures EndsBalance(t)
  {
    forall e: PipeEnd ensures IsOpen(t, e) <==> IsOpen(s, e) && e != s.fds[r] {
      if f :| f in s.fds && s.fds[f] == e && e != s.fds[r] { assert t.fds[f] == e; }
    }
    assert IsOpen(s, s.fds[r]);
  }

  lemma CollectIds(jobs: seq<JobData>, collected: seq<nat>, next: nat, i: nat)
    requires IdsBalance(jobs, collected, next) && i < |jobs|
    ensures IdsBalance(Without(jobs, i), collected + [jobs[i].id], next)
  {
    var ids := Ids(jobs);
    assert Ids(Without(jobs, i)) == ids[..i] + ids[i + 1..];
    assert ids == ids[..i] + [ids[i]] + ids[i + 1..];
  }

  lemma CollectKeepsInv(jobs: seq<JobData>, s: KernelState, collected: seq<nat>, i: nat, t: KernelState)
    requires Inv(jobs, s, collected) && i < |jobs|
    requires t.children == s.children - {jobs[i].pid} && t.fds == s.fds - {jobs[i].readFd} && t.pipes == s.pipes
    requires t.closed == s.closed + multiset{ReadEnd(jobs[i].id)}
    ensures Inv(Without(jobs, i), t, collected + [jobs[i].id])
  {
    assert jobs[i].pid in s.children && s.fds[jobs[i].readFd] == ReadEnd(jobs[i].id);
    hide Linked, Distinct, PidsCovered, FdsCovered, EndsBalance, IdsBalance;
    CollectIds(jobs, collected, s.pipes, i);
    CollectLinks(jobs, s, i, t);
    CollectPids(jobs, s, i, t);
    CollectFds(jobs, s, i, t);
    CollectEnds(s, jobs[i].readFd, t);
  }

  lemma SameSize(jobs: seq<JobData>, s: KernelState, collected: seq<nat>)
    requires Inv(jobs, s, collected)
    ensures |s.children| == |jobs|
  {
  }

  /** With nothing active, all children are reaped and both ends of every pipe have been closed once. */
  lemma IdleMeansAllDone(s: KernelState, collected: seq<nat>)
    requires Inv([], s, collected)
    ensures s.children == map[] && s.fds == map[]
    ensures multiset(collected) == multiset(UpTo(s.pipes))
    ensures forall e: PipeEnd :: s.closed[e] == if e.pipe < s.pipes then 1 else 0
  {
    assert Ids([]) == [];
    assert forall f :: f !in s.fds;
    assert forall p :: p !in s.children;
    assert forall e: PipeEnd :: !IsOpen(s, e);
  }

  // ---------------------------------------------------------------- results

  datatype SchedulerKind = OrigJobs | TestJobs

  predicate Reports(kind: SchedulerKind, p: Payload) {
    match kind
    case OrigJobs => p.OrigResult?
    case TestJobs => p.TestResult? && Reportable(p.status)
  }

  /** Every job writes a result of its kind before it exits. */
  ghost predicate AllReport(kind: SchedulerKind, result: nat -> Payload) {
    forall id :: Reports(kind, result(id))
  }

  /** The jobs among `ids` whose result counts as `k`. */
  ghost function Tally(ids: seq<nat>, result: nat -> Payload, k: Stats.Kind): nat
    requires AllReport(TestJobs, result)
  {
    if ids == [] then 0 else
    assert Reports(TestJobs, result(ids[|ids| - 1]));
    Tally(ids[..|ids| - 1], result, k) + if Stats.KindOf(result(ids[|ids| - 1]).status) == k then 1 else 0
  }

  lemma TallySnoc(ids: seq<nat>, id: nat, result: nat -> Payload)
    requires AllReport(TestJobs, result)
    ensures Reports(TestJobs, result(id))
    ensures forall k :: Tally(ids + [id], result, k) ==
                        Tally(ids, result, k) + if Stats.KindOf(result(id).status) == k then 1 else 0
  {
    assert Reports(TestJobs, result(id));
    assert (ids + [id])[..|ids|] == ids;
  }

  /** The counters have grown by the tally. */
  ghost predicate Tallies(counts: Stats.Counts, base: Stats.Counts, ids: seq<nat>, result: nat -> Payload)
    requires AllReport(TestJobs, result) && Stats.HasCounters(counts) && Stats.HasCounters(base)
  {
    forall k :: k in Stats.COUNTERS ==> counts[k] == base[k] + Tally(ids, result, k)
  }

  lemma TalliesSnoc(counts: Stats.Counts, base: Stats.Counts, ids: seq<nat>, id: nat, result: nat -> Payload)
    requires AllReport(TestJobs, result) && Stats.HasCounters(counts) && Stats.HasCounters(base)
    requires Tallies(counts, base, ids, result)
    ensures Reports(TestJobs, result(id))
    ensures var k := Stats.KindOf(result(id).status);
            Stats.IsCounter(k) && Tallies(counts[k := counts[k] + 1], base, ids + [id], result)
  {
    TallySnoc(ids, id, result);
    hide AllReport, Tally;
  }

  lemma {:induction false} TallyRemove(ids: seq<nat>, i: nat, result: nat -> Payload, k: Stats.Kind)
    requires AllReport(TestJobs, result)
    requires i < |ids|
    ensures Reports(TestJobs, result(ids[i]))
    ensures Tally(ids, result, k) ==
            Tally(ids[..i] + ids[i + 1..], result, k) + if Stats.KindOf(result(ids[i]).status) == k then 1 else 0
    decreases |ids|
  {
    var n := |ids| - 1;
    if i < n {
      TallyRemove(ids[..n], i, result, k);
      var rest := ids[..i] + ids[i + 1..];
      assert rest[..|rest| - 1] == ids[..n][..i] + ids[..n][i + 1..];
      assert rest[|rest| - 1] == ids[n];
    } else {
      assert ids[..i] + ids[i + 1..] == ids[..n];
    }
  }

  lemma FindRemove(b: seq<nat>, x: nat) returns (i: nat)
    requires x in multiset(b)
    ensures i < |b| && b[i] == x
    ensures multiset(b[..i] + b[i + 1..]) == multiset(b) - multiset{x}
  {
    i :| 0 <= i < |b| && b[i] == x;
    assert b == b[..i] + [b[i]] + b[i + 1..];
  }

  /** The tally does not depend on the order in which jobs finish. */
  lemma {:induction false} TallyPermutation(a: seq<nat>, b: seq<nat>, result: nat -> Payload, k: Stats.Kind)
    requires AllReport(TestJobs, result)
    requires multiset(a) == multiset(b)
    ensures Tally(a, result, k) == Tally(b, result, k)
    decreases |a|
  {
    if a == [] {
      assert |b| == |multiset(b)| == 0;
    } else {
      var n := |a| - 1;
      assert a == a[..n] + [a[n]];
      var i := FindRemove(b, a[n]);
      assert multiset(a[..n]) == multiset(a) - multiset{a[n]};
      TallyPermutation(a[..n], b[..i] + b[i + 1..], result, k);
      TallyRemove(b, i, result, k);
    }
  }

  // ---------------------------------------------------------------- the scheduler

  class JobScheduler {
    const kernel: Kernel
    const stats: Stats.Statistics
    const kind: SchedulerKind
    const jobs: nat
    const result: nat -> Payload  // what the job with a given id writes to its pipe
    var activeJobs: seq<JobData>
    var origExitState: ExitState
    ghost var collected: seq<nat>
    ghost const base: Stats.Counts  // the counters at the start
    ghost const baseTotal: nat

    /** What has been collected is credited to the jobs that wrote it. */
    ghost predicate Credited()
      reads this, stats
    {
      && AllReport(kind, result) && stats.Valid() && Stats.HasCounters(base)
      && match kind
         case OrigJobs =>
           && (0 in collected ==> OrigResult(origExitState) == result(0))
           && stats.counts == base && stats.grandTotal == baseTotal
         case TestJobs =>
           stats.grandTotal == baseTotal + |collected| && Tallies(stats.counts, base, collected, result)
    }

    ghost predicate Valid()
      reads this, kernel, stats
    {
      && Inv(activeJobs, kernel.s, collected) && Credited()
      && |activeJobs| <= jobs && kernel.s.peak <= jobs
    }

    constructor (kernel: Kernel, stats: Stats.Statistics, kind: SchedulerKind, jobs: nat, result: nat -> Payload)
      requires kernel.s == BOOT && stats.Valid() && jobs >= 1
      requires AllReport(kind, result)
      ensures Valid() && activeJobs == [] && collected == []
      ensures this.kernel == kernel && this.stats == stats && this.kind == kind
      ensures this.jobs == jobs && this.result == result
      ensures base == stats.counts && baseTotal == stats.grandTotal
    {
      this.kernel, this.stats, this.kind, this.jobs, this.result := kernel, stats, kind, jobs, result;
      activeJobs, origExitState, collected := [], Invalid, [];
      base, baseTotal := stats.counts, stats.grandTotal;
    }

    /** std::find_if by process id. */
    method FindJob(pid: int) returns (it: nat)
      requires exists i :: 0 <= i < |activeJobs| && activeJobs[i].pid == pid
      ensures it < |activeJobs| && activeJobs[it].pid == pid
    {
      it := 0;
      while activeJobs[it].pid != pid
        invariant it < |activeJobs|
        invariant exists i :: it <= i < |activeJobs| && activeJobs[i].pid == pid
        decreases |activeJobs| - it
      {
        it := it + 1;
      }
    }

    /** The data is that of a job whose result is in its pipe. */
    ghost predicate Finished(data: JobData)
      reads kernel
    {
      && data.readFd in kernel.s.fds && kernel.s.fds[data.readFd] == ReadEnd(data.id)
      && data.id in kernel.s.content && kernel.s.content[data.id] == result(data.id)
    }

    /** An original run: only the first job sets the exit state. */
    method OrigJobFinishedParentCode(data: JobData)
      requires Credited() && Finished(data) && kind.OrigJobs?
      modifies this`origExitState, this`collected
      ensures Credited() && collected == old(collected) + [data.id]
    {
      assert Reports(kind, result(data.id));
      if data.id == 0 {
        var p := kernel.Read(data.readFd);
        origExitState := p.state;
      }
      collected := collected + [data.id];
    }

    /** A test run: the status read from the pipe of the job goes to its counter. */
    method TestJobFinishedParentCode(data: JobData)
      requires Credited() && Finished(data) && kind.TestJobs?
      modifies this`collected, stats
      ensures Credited() && collected == old(collected) + [data.id]
      ensures old(stats.Consistent()) ==> stats.Consistent()
      ensures var s := result(data.id).status;
              && (s.Masked? ==> stats.counts[Stats.Kind.Masked] == old(stats.counts)[Stats.Kind.Masked] + 1)
              && (s.Exception? ==> stats.counts[Stats.Kind.Exception] == old(stats.counts)[Stats.Kind.Exception] + 1)
              && (s.InfExec? ==> stats.counts[Stats.Kind.InfExec] == old(stats.counts)[Stats.Kind.InfExec] + 1)
              && (s.Corrupted? ==> stats.counts[Stats.Kind.Corrupted] == old(stats.counts)[Stats.Kind.Corrupted] + 1)
              && (s.Detected? ==> stats.counts[Stats.Kind.Detected] == old(stats.counts)[Stats.Kind.Detected] + 1)
              && (s.Skipped? ==> stats.counts[Stats.Kind.Skipped] == old(stats.counts)[Stats.Kind.Skipped] + 1)
    {
      hide Tallies, Stats.Sum, Stats.CheckedSum;
      assert Reports(kind, result(data.id));
      TalliesSnoc(stats.counts, base, collected, data.id, result);
      var p := kernel.Read(data.readFd);
      var ok := stats.Incr(Stats.KindOf(p.status));
      collected := collected + [data.id];
    }

    method JobFinishedParentCode(data: JobData)
      requires Credited() && Finished(data)
      modifies this`origExitState, this`collected, stats
      ensures Credited() && collected == old(collected) + [data.id]
      ensures old(stats.Consistent()) ==> stats.Consistent()
    {
      if kind.OrigJobs? { OrigJobFinishedParentCode(data); } else { TestJobFinishedParentCode(data); }
    }

    method WaitForJob()
      requires Valid() && activeJobs != []
      modifies this, kernel, stats
      ensures Valid() && |activeJobs| == |old(activeJobs)| - 1
      ensures kernel.s.pipes == old(kernel.s.pipes)
      ensures old(stats.Consistent()) ==> stats.Consistent()
    {
      ghost var s0, jobs0 := kernel.s, activeJobs;
      assert activeJobs[0].pid in s0.children;
      var pid := kernel.WaitAny(result);
      var it := FindJob(pid);
      var data := activeJobs[it];
      JobFinishedParentCode(data);
      kernel.Close(data.readFd);
      CollectKeepsInv(jobs0, s0, old(collected), it, kernel.s);
      activeJobs := activeJobs[..it] + activeJobs[it + 1..];
    }

    /** One turn of the launching loop, after a place has become free. */
    method Launch(id: nat)
      requires Valid() && |activeJobs| < jobs && id == kernel.s.pipes
      modifies this, kernel
      ensures Valid() && kernel.s.pipes == id + 1
    {
      hide Linked, Distinct, PidsCovered, FdsCovered, EndsBalance, IdsBalance, AllReport;
      ghost var s0, jobs0 := kernel.s, activeJobs;
      SameSize(jobs0, s0, collected);
      var r, w := kernel.Pipe();
      activeJobs := activeJobs + [JobData(0, id, r, w)];
      var childJobPID := kernel.Fork(id, w);
      kernel.Close(w);
      activeJobs := activeJobs[|activeJobs| - 1 := JobData(childJobPID, id, r, w)];
      ghost var job := JobData(childJobPID, id, r, w);
      assert activeJobs == jobs0 + [job];
      LaunchKeepsInv(jobs0, s0, collected, job, kernel.s);
    }

    /**
      All ids are launched and collected once, never more than `jobs` at a time, whatever the
      order in which jobs finish; every pipe end is closed once; results reach their counters.
     */
    method Run(totalNumJobs: nat)
      requires Valid() && activeJobs == [] && collected == [] && kernel.s == BOOT && jobs >= 1
      requires totalNumJobs < 0x1_0000_0000  // the loop counter is an unsigned int
      modifies this, kernel, stats
      ensures activeJobs == [] && kernel.s.children == map[] && kernel.s.fds == map[]
      ensures multiset(collected) == multiset(UpTo(totalNumJobs))
      ensures forall e: PipeEnd :: kernel.s.closed[e] == if e.pipe < totalNumJobs then 1 else 0
      ensures kernel.s.peak <= jobs
      ensures kind.OrigJobs? && totalNumJobs > 0 ==> OrigResult(origExitState) == result(0)
      ensures AllReport(kind, result) && stats.Valid() && Stats.HasCounters(base)
      ensures kind.TestJobs? ==>
                forall k :: k in Stats.COUNTERS ==> stats.counts[k] == base[k] + Tally(UpTo(totalNumJobs), result, k)
      ensures kind.TestJobs? ==> stats.grandTotal == baseTotal + totalNumJobs
      ensures old(stats.Consistent()) ==> stats.Consistent()
    {
      hide Inv, AllReport;
      for id := 0 to totalNumJobs
        invariant Valid() && kernel.s.pipes == id
        invariant old(stats.Consistent()) ==> stats.Consistent()
      {
        while |activeJobs| == jobs
          invariant Valid() && kernel.s.pipes == id
          invariant old(stats.Consistent()) ==> stats.Consistent()
          decreases |activeJobs|
        {
          WaitForJob();
        }
        Launch(id);
      }
      while |activeJobs| > 0
        invariant Valid() && kernel.s.pipes == totalNumJobs
        invariant old(stats.Consistent()) ==> stats.Consistent()
        decreases |activeJobs|
      {
        WaitForJob();
      }
      AllDone(totalNumJobs);
    }

    lemma AllDone(total: nat)
      requires Valid() && activeJobs == [] && kernel.s.pipes == total
      ensures kernel.s.children == map[] && kernel.s.fds == map[]
      ensures multiset(collected) == multiset(UpTo(total)) && |collected| == total
      ensures total > 0 ==> 0 in collected
      ensures forall e: PipeEnd :: kernel.s.closed[e] == if e.pipe < total then 1 else 0
      ensures kind.TestJobs? ==>
                forall k :: k in Stats.COUNTERS ==> Tally(collected, result, k) == Tally(UpTo(total), result, k)
    {
      hide AllReport, Tally;
      IdleMeansAllDone(kernel.s, collected);
      assert |collected| == |multiset(collected)| == |multiset(UpTo(total))| == |UpTo(total)|;
      if total > 0 { assert UpTo(total)[0] in multiset(UpTo(total)); assert 0 in multiset(collected); }
      if kind.TestJobs? {
        forall k | k in Stats.COUNTERS ensures Tally(collected, result, k) == Tally(UpTo(total), result, k) {
          TallyPermutation(collected, UpTo(total), result, k);
        }
      }
    }
  }
}
