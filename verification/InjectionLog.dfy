/**
  What a run does to the operating system, as a log, and the rules a log must keep
  (src/runner.cpp).  The rules are checked by two monitors that read the log once, one for
  flips and terminals and one for the fate of the child launched last; the lemmas say what a log
  that both accept means in terms of its entries.
 */
module InjectionLog {
  import opened Options
  import opened Outcomes
  import opened ThreadTracking
  import opened Registers

  datatype Action =
    | OpenPty(fd: int)           // with the launch that follows it
    | ClosePty(fd: int)
    | Launch(pid: int)
    | Start(pid: int)            // the child runs, traced
    | Announce(pid: int)         // a clone event named a new thread
    | Cont(pid: int)
    | Waited(event: Event)       // waitpid for any process has returned an event that is not swallowed
    | Joined(sent: bool)         // the sleeper has told whether its signal was sent
    | SingleStep(pid: int)
    | Flip(pid: int, change: Change)  // a flip of one bit has been written back: what it did to the machine
    | FlipFailed                 // the attempt to flip a bit was given up
    | Kill(pid: int)
    | PtraceKill(pid: int)
    | Reap(pid: int)
    | Classify(status: FtStatus, pid: int)  // by an event of process `pid`

  datatype View = View(
    pid: int,                // the child launched last
    threads: set<int>,       // it and the threads announced since
    flips: nat,              // flips since the launch
    pending: bool,           // a failed flip whose child has not been killed and reaped yet
    killed: bool,            // ... but killed
    classified: bool,
    pty: Option<int>,        // the open terminal
    launches: nat, starts: nat, totalFlips: nat,
    ok: bool)                // all rules kept so far

  const START := View(0, {}, 0, false, false, false, Option.None, 0, 0, 0, true)

  /** One entry; `expected` is the number of flips a classified child must have received. */
  function Observe(v: View, a: Action, expected: nat): View {
    match a
    case OpenPty(fd) => v.(ok := v.ok && v.pty.None?, pty := Some(fd))
    case ClosePty(fd) => v.(ok := v.ok && v.pty == Some(fd), pty := Option.None)
    case Launch(pid) =>
      v.(ok := v.ok && v.flips == 0 && !v.pending && !v.classified,
         pid := pid, threads := {pid}, flips := 0, pending := false, killed := false, classified := false,
         launches := v.launches + 1)
    case Start(pid) => v.(ok := v.ok && pid == v.pid, starts := v.starts + 1)
    case Announce(pid) => v.(threads := v.threads + {pid})
    case Cont(pid) => v
    case Waited(_) => v
    case Joined(_) => v
    case SingleStep(pid) => v.(ok := v.ok && pid in v.threads)
    case Flip(pid, _) =>
      v.(ok := v.ok && pid in v.threads && v.flips == 0 && !v.pending && !v.classified,
         flips := v.flips + 1, totalFlips := v.totalFlips + 1)
    case FlipFailed => v.(ok := v.ok && v.flips == 0 && !v.classified, pending := true, killed := false)
    case Kill(pid) => v.(ok := v.ok && pid == v.pid, killed := v.pending)
    case PtraceKill(pid) => v.(ok := v.ok && pid == v.pid)
    case Reap(pid) => v.(ok := v.ok && pid == v.pid, pending := v.pending && !v.killed, killed := false)
    case Classify(_, _) => v.(ok := v.ok && v.flips == expected && !v.pending && !v.classified, classified := true)
  }

  function Watch(log: seq<Action>, expected: nat): View {
    if log == [] then START else Observe(Watch(log[..|log| - 1], expected), log[|log| - 1], expected)
  }

  predicate Accepted(log: seq<Action>, expected: nat) {
    Watch(log, expected).ok
  }

  /** A prefix of an accepted log is accepted. */
  lemma {:induction false} AcceptedPrefix(log: seq<Action>, expected: nat, n: nat)
    requires Accepted(log, expected) && n <= |log|
    ensures Accepted(log[..n], expected)
    decreases |log|
  {
    if n == |log| {
      assert log[..n] == log;
    } else {
      AcceptedPrefix(log[..|log| - 1], expected, n);
      assert log[..|log| - 1][..n] == log[..n];
    }
  }

  // ---------------------------------------------------------------- flips

  function FlipsSinceLaunch(log: seq<Action>): nat {
    if log == [] then 0 else
    match log[|log| - 1]
    case Launch(_) => 0
    case Flip(_, _) => FlipsSinceLaunch(log[..|log| - 1]) + 1
    case _ => FlipsSinceLaunch(log[..|log| - 1])
  }

  lemma {:induction false} WatchFlips(log: seq<Action>, expected: nat)
    ensures Watch(log, expected).flips == FlipsSinceLaunch(log)
    decreases |log|
  {
    if log != [] { WatchFlips(log[..|log| - 1], expected); }
  }

  /** The child whose outcome is classified has received exactly the expected number of flips since its launch. */
  lemma ClassifiedWasFlipped(log: seq<Action>, expected: nat, i: nat)
    requires Accepted(log, expected) && i < |log| && log[i].Classify?
    ensures FlipsSinceLaunch(log[..i]) == expected
  {
    AcceptedPrefix(log, expected, i + 1);
    assert log[..i + 1][..i] == log[..i];
    WatchFlips(log[..i], expected);
  }

  /** The process flipped is the child launched last or a thread announced since. */
  function ThreadsSinceLaunch(log: seq<Action>): set<int> {
    if log == [] then {} else
    match log[|log| - 1]
    case Launch(pid) => {pid}
    case Announce(pid) => ThreadsSinceLaunch(log[..|log| - 1]) + {pid}
    case _ => ThreadsSinceLaunch(log[..|log| - 1])
  }

  lemma {:induction false} WatchThreads(log: seq<Action>, expected: nat)
    ensures Watch(log, expected).threads == ThreadsSinceLaunch(log)
    decreases |log|
  {
    if log != [] { WatchThreads(log[..|log| - 1], expected); }
  }

  lemma FlipHitsOwnThread(log: seq<Action>, expected: nat, i: nat)
    requires Accepted(log, expected) && i < |log| && (log[i].Flip? || log[i].SingleStep?)
    ensures log[i].pid in ThreadsSinceLaunch(log[..i])
  {
    AcceptedPrefix(log, expected, i + 1);
    assert log[..i + 1][..i] == log[..i];
    WatchThreads(log[..i], expected);
  }

  // ---------------------------------------------------------------- failed flips

  function LastPid(log: seq<Action>): int {
    if log == [] then 0
    else if log[|log| - 1].Launch? then log[|log| - 1].pid
    else LastPid(log[..|log| - 1])
  }

  lemma {:induction false} WatchPid(log: seq<Action>, expected: nat)
    ensures Watch(log, expected).pid == LastPid(log)
    decreases |log|
  {
    if log != [] { WatchPid(log[..|log| - 1], expected); }
  }

  /** The child was killed and then reaped between entries `i` and `k`. */
  ghost predicate KilledAndReaped(log: seq<Action>, i: int, k: int, pid: int) {
    exists a, b :: KillThenReap(log, i, k, pid, a, b)
  }

  ghost predicate KillThenReap(log: seq<Action>, i: int, k: int, pid: int, a: int, b: int) {
    i < a < b < k && 0 <= a && b < |log| && log[a] == Kill(pid) && log[b] == Reap(pid)
  }

  ghost predicate KilledAfter(log: seq<Action>, i: int, k: int, pid: int) {
    exists a :: i < a < k && 0 <= a < |log| && log[a] == Kill(pid)
  }

  lemma PendingStep(u: View, a: Action, expected: nat)
    requires Observe(u, a, expected).ok && !a.Launch?
    ensures var v := Observe(u, a, expected);
            && v.pid == u.pid
            && (u.pending && !v.pending ==> u.killed && a == Reap(u.pid))
            && (v.killed && !u.killed ==> a == Kill(u.pid))
  {
  }

  lemma FailedFlipPends(u: View, expected: nat)
    ensures var v := Observe(u, FlipFailed, expected);
            v.pid == u.pid && v.pending && !v.killed
  {
  }

  /** While no new child is launched, a failed flip stays pending until its child is killed and reaped. */
  lemma {:induction false} PendingUntilReaped(log: seq<Action>, expected: nat, i: nat, k: nat)
    requires Accepted(log, expected) && i < k <= |log| && log[i].FlipFailed?
    requires forall j :: i < j < k ==> !log[j].Launch?
    ensures Watch(log[..k], expected).pid == LastPid(log[..i])
    ensures var v := Watch(log[..k], expected);
            && (v.pending || KilledAndReaped(log, i, k, v.pid))
            && (v.killed ==> KilledAfter(log, i, k, v.pid))
    decreases k
  {
    hide Observe;
    assert log[..k][..k - 1] == log[..k - 1];
    var u, v, a := Watch(log[..k - 1], expected), Watch(log[..k], expected), log[k - 1];
    assert v == Observe(u, a, expected);
    if k == i + 1 {
      WatchPid(log[..i], expected);
      FailedFlipPends(u, expected);
    } else {
      PendingUntilReaped(log, expected, i, k - 1);
      AcceptedPrefix(log, expected, k);
      PendingStep(u, a, expected);
      StillReaped(log, i, k, u.pid);
      if u.killed && a == Reap(u.pid) { ReapedNow(log, i, k, u.pid); }
      if a == Kill(u.pid) { assert log[k - 1] == Kill(u.pid); }
    }
  }

  lemma StillReaped(log: seq<Action>, i: nat, k: nat, pid: int)
    requires i < k - 1 < |log|
    ensures KilledAndReaped(log, i, k - 1, pid) ==> KilledAndReaped(log, i, k, pid)
    ensures KilledAfter(log, i, k - 1, pid) ==> KilledAfter(log, i, k, pid)
  {
    if KilledAndReaped(log, i, k - 1, pid) {
      var a, b :| KillThenReap(log, i, k - 1, pid, a, b);
      assert KillThenReap(log, i, k, pid, a, b);
    }
  }

  lemma ReapedNow(log: seq<Action>, i: nat, k: nat, pid: int)
    requires i < k - 1 < |log| && KilledAfter(log, i, k - 1, pid) && log[k - 1] == Reap(pid)
    ensures KilledAndReaped(log, i, k, pid)
  {
    var a :| i < a < k - 1 && 0 <= a < |log| && log[a] == Kill(pid);
    assert KillThenReap(log, i, k, pid, a, k - 1);
  }

  /** A child whose flip failed is killed and reaped before the next launch, and not classified before that. */
  lemma FailedFlipIsKilled(log: seq<Action>, expected: nat, i: nat, k: nat)
    requires Accepted(log, expected) && i < k < |log| && log[i].FlipFailed?
    requires forall j :: i < j < k ==> !log[j].Launch?
    requires log[k].Launch? || log[k].Classify?
    ensures KilledAndReaped(log, i, k, LastPid(log[..i]))
  {
    PendingUntilReaped(log, expected, i, k);
    AcceptedPrefix(log, expected, k + 1);
    assert log[..k + 1][..k] == log[..k];
  }

  // ---------------------------------------------------------------- the fate of a child

  /** What has become of the child launched last. */
  datatype Fate = Fate(
    pid: int,
    started: bool,
    condemned: bool,         // it has been killed,
    gone: bool,              // ... and then reaped
    excused: bool,           // a signal was not sent, or an exit was waited for, since its launch
    ended: bool,             // its own end has been waited for
    last: Option<int>,       // the process of the event waited for last since its launch
    change: Option<Change>,  // what the last flip since its launch has done
    abandoned: nat,          // how many children launched before were abandoned
    ok: bool)

  /** A child that has just been launched. */
  function Newborn(pid: int, abandoned: nat): Fate {
    Fate(pid, false, false, false, false, false, Option.None, Option.None, abandoned, true)
  }

  const UNBORN := Newborn(0, 0)

  /** What lets a started child live on when the next one is launched. */
  predicate Excuse(a: Action) {
    a == Joined(false) || (a.Waited? && a.event.what.Exit?)
  }

  /** A new child may be launched: a started one has been killed and reaped, unless there is an excuse. */
  predicate Settled(f: Fate) {
    f.started ==> (f.gone <==> !f.excused)
  }

  /** Started and as yet left alone. */
  predicate Untouched(f: Fate) {
    f.started && !f.condemned && !f.gone && !f.excused && !f.ended
  }

  /** A launch now would abandon the child: it was started, and nobody saw its end. */
  predicate Unattended(f: Fate) {
    f.started && !f.gone && !f.ended
  }

  function Follow(f: Fate, a: Action): Fate {
    match a
    case Launch(pid) =>
      Newborn(pid, f.abandoned + if Unattended(f) then 1 else 0).(ok := f.ok && Settled(f))
    case Start(pid) => f.(ok := f.ok && pid == f.pid && pid > 0, started := true)
    case Waited(e) =>
      f.(excused := f.excused || Excuse(a), ended := f.ended || (e.pid == f.pid && IsDeath(e)), last := Some(e.pid))
    case Flip(_, change) => f.(change := Some(change))
    case Joined(_) => f.(excused := f.excused || Excuse(a))
    case Kill(pid) => f.(ok := f.ok && pid == f.pid, condemned := true)
    case PtraceKill(pid) => f.(ok := f.ok && pid == f.pid, condemned := true)
    case Reap(pid) => f.(ok := f.ok && pid == f.pid, gone := f.gone || f.condemned)
    case Classify(_, pid) => f.(ok := f.ok && f.last == Some(pid))
    case _ => f
  }

  function FateOf(log: seq<Action>): Fate {
    if log == [] then UNBORN else Follow(FateOf(log[..|log| - 1]), log[|log| - 1])
  }

  lemma {:induction false} FateOfPrefix(log: seq<Action>, n: nat)
    requires FateOf(log).ok && n <= |log|
    ensures FateOf(log[..n]).ok
    decreases |log|
  {
    if n == |log| {
      assert log[..n] == log;
    } else {
      FateOfPrefix(log[..|log| - 1], n);
      assert log[..|log| - 1][..n] == log[..n];
    }
  }

  predicate IsKill(a: Action, pid: int) {
    a == Kill(pid) || a == PtraceKill(pid)
  }

  ghost predicate StartedBetween(log: seq<Action>, i: int, k: int) {
    exists j :: i < j < k && 0 <= j < |log| && log[j].Start?
  }

  ghost predicate CondemnedBetween(log: seq<Action>, i: int, k: int, pid: int) {
    exists j :: i < j < k && 0 <= j < |log| && IsKill(log[j], pid)
  }

  ghost predicate ExcusedBetween(log: seq<Action>, i: int, k: int) {
    exists j :: i < j < k && 0 <= j < |log| && Excuse(log[j])
  }

  /** The child was killed, in one way or the other, and then reaped. */
  ghost predicate EndedBetween(log: seq<Action>, i: int, k: int, pid: int) {
    exists b :: i < b < k && 0 <= b < |log| && log[b] == Reap(pid) && CondemnedBetween(log, i, b, pid)
  }

  /** The child ended by itself and this was waited for. */
  ghost predicate OwnEndBetween(log: seq<Action>, i: int, k: int, pid: int) {
    exists j :: i < j < k && 0 <= j < |log| && IsOwnEnd(log[j], pid)
  }

  predicate IsOwnEnd(a: Action, pid: int) {
    a.Waited? && a.event.pid == pid && IsDeath(a.event)
  }

  /** Nobody saw the end of the child launched at `i` before the launch at `k`. */
  ghost predicate Abandoned(log: seq<Action>, i: int, k: int)
    requires 0 <= i < |log| && log[i].Launch?
  {
    !EndedBetween(log, i, k, log[i].pid) && !OwnEndBetween(log, i, k, log[i].pid)
  }

  /** What the monitor knows of the child launched at `i`. */
  ghost predicate Knows(f: Fate, log: seq<Action>, i: int, k: int, pid: int) {
    && f.pid == pid
    && (f.started <==> StartedBetween(log, i, k))
    && (f.condemned <==> CondemnedBetween(log, i, k, pid))
    && (f.excused <==> ExcusedBetween(log, i, k))
    && (f.gone <==> EndedBetween(log, i, k, pid))
    && (f.ended <==> OwnEndBetween(log, i, k, pid))
  }

  lemma FateStep(f: Fate, a: Action)
    requires Follow(f, a).ok && !a.Launch?
    ensures var g := Follow(f, a);
            && g.pid == f.pid
            && (g.started <==> f.started || a.Start?)
            && (g.condemned <==> f.condemned || IsKill(a, f.pid))
            && (g.excused <==> f.excused || Excuse(a))
            && (g.gone <==> f.gone || (f.condemned && a == Reap(f.pid)))
            && (g.ended <==> f.ended || IsOwnEnd(a, f.pid))
  {
  }

  /** One entry more. */
  lemma BetweenStep(log: seq<Action>, i: int, k: int, pid: int)
    requires 0 <= i < k < |log|
    ensures StartedBetween(log, i, k + 1) <==> StartedBetween(log, i, k) || log[k].Start?
    ensures CondemnedBetween(log, i, k + 1, pid) <==> CondemnedBetween(log, i, k, pid) || IsKill(log[k], pid)
    ensures ExcusedBetween(log, i, k + 1) <==> ExcusedBetween(log, i, k) || Excuse(log[k])
    ensures EndedBetween(log, i, k + 1, pid) <==>
            EndedBetween(log, i, k, pid) || (CondemnedBetween(log, i, k, pid) && log[k] == Reap(pid))
    ensures OwnEndBetween(log, i, k + 1, pid) <==> OwnEndBetween(log, i, k, pid) || IsOwnEnd(log[k], pid)
  {
    hide IsKill, Excuse, IsOwnEnd;
  }

  lemma {:induction false} FateKnows(log: seq<Action>, i: nat, k: nat)
    requires FateOf(log).ok && i < k <= |log| && log[i].Launch?
    requires forall j :: i < j < k ==> !log[j].Launch?
    ensures Knows(FateOf(log[..k]), log, i, k, log[i].pid)
    decreases k
  {
    assert log[..k][..k - 1] == log[..k - 1];
    if k > i + 1 {
      hide Follow, IsKill, Excuse, IsOwnEnd, StartedBetween, CondemnedBetween, ExcusedBetween, EndedBetween,
        OwnEndBetween;
      FateKnows(log, i, k - 1);
      FateOfPrefix(log, k);
      FateStep(FateOf(log[..k - 1]), log[k - 1]);
      BetweenStep(log, i, k - 1, log[i].pid);
    }
  }

  /**
    When the next child is launched, a started one has been killed and reaped, unless a
    signal was not sent or an exit was waited for; so it is abandoned exactly then, if the
    exit was not its own.
   */
  lemma AbandonedIff(log: seq<Action>, i: nat, k: nat)
    requires FateOf(log).ok && i < k < |log| && log[i].Launch? && log[k].Launch?
    requires (forall j :: i < j < k ==> !log[j].Launch?) && StartedBetween(log, i, k)
    ensures EndedBetween(log, i, k, log[i].pid) <==> !ExcusedBetween(log, i, k)
    ensures Abandoned(log, i, k) <==> ExcusedBetween(log, i, k) && !OwnEndBetween(log, i, k, log[i].pid)
  {
    FateKnows(log, i, k);
    FateOfPrefix(log, k + 1);
    assert log[..k + 1][..k] == log[..k];
  }

  /** The launch at `k` abandons the child launched before it, which had been started. */
  ghost predicate AbandonsAt(log: seq<Action>, k: int) {
    exists i :: AbandonsFrom(log, i, k)
  }

  ghost predicate AbandonsFrom(log: seq<Action>, i: int, k: int) {
    && 0 <= i < k < |log| && log[i].Launch? && log[k].Launch? && (forall j :: i < j < k ==> !log[j].Launch?)
    && StartedBetween(log, i, k) && Abandoned(log, i, k)
  }

  /** How many of the first `n` entries abandon a child. */
  ghost function Abandonments(log: seq<Action>, n: nat): nat
    requires n <= |log|
  {
    if n == 0 then 0 else Abandonments(log, n - 1) + if AbandonsAt(log, n - 1) then 1 else 0
  }

  /** What an entry keeps of the process, of the event waited for last, of the last flip and of the count. */
  lemma FollowKeeps(f: Fate, a: Action)
    ensures var g := Follow(f, a);
            && (!a.Launch? ==> g.pid == f.pid)
            && (g.started <==> !a.Launch? && (f.started || a.Start?))
            && (g.ok ==> f.ok && (a.Start? ==> g.pid > 0))
            && (g.last == if a.Launch? then Option.None else if a.Waited? then Some(a.event.pid) else f.last)
            && (g.change == if a.Launch? then Option.None else if a.Flip? then Some(a.change) else f.change)
            && (g.abandoned == f.abandoned + if a.Launch? && Unattended(f) then 1 else 0)
  {
  }

  lemma {:induction false} StartedIsBorn(log: seq<Action>)
    requires FateOf(log).ok && FateOf(log).started
    ensures FateOf(log).pid != 0
    decreases |log|
  {
    var n := |log| - 1;
    FollowKeeps(FateOf(log[..n]), log[n]);
    hide Follow;
    if FateOf(log[..n]).started { StartedIsBorn(log[..n]); }
  }

  lemma {:induction false} LastLaunch(log: seq<Action>, k: nat) returns (i: nat)
    requires k <= |log| && FateOf(log[..k]).pid != 0
    ensures i < k && log[i].Launch? && forall j :: i < j < k ==> !log[j].Launch?
    decreases k
  {
    assert k > 0 && log[..k][..k - 1] == log[..k - 1];
    FollowKeeps(FateOf(log[..k - 1]), log[k - 1]);
    hide Follow;
    if log[k - 1].Launch? { i := k - 1; } else { i := LastLaunch(log, k - 1); }
  }

  /** The monitor counts the abandoned children. */
  lemma {:induction false} FateCountsAbandoned(log: seq<Action>, n: nat)
    requires FateOf(log).ok && n <= |log|
    ensures FateOf(log[..n]).abandoned == Abandonments(log, n)
    decreases n
  {
    if n > 0 {
      FateCountsAbandoned(log, n - 1);
      assert log[..n][..n - 1] == log[..n - 1];
      FollowKeeps(FateOf(log[..n - 1]), log[n - 1]);
      hide Follow, Unattended;
      if log[n - 1].Launch? {
        LaunchAbandonsIff(log, n - 1);
      } else {
        assert !AbandonsAt(log, n - 1);
      }
    }
  }

  lemma LaunchAbandonsIff(log: seq<Action>, k: nat)
    requires FateOf(log).ok && k < |log| && log[k].Launch?
    ensures AbandonsAt(log, k) <==> Unattended(FateOf(log[..k]))
  {
    hide Follow, FateOf, StartedBetween, EndedBetween, OwnEndBetween, CondemnedBetween, ExcusedBetween;
    FateOfPrefix(log, k);
    forall i | 0 <= i < k && log[i].Launch? && (forall j :: i < j < k ==> !log[j].Launch?)
      ensures AbandonsFrom(log, i, k) <==> Unattended(FateOf(log[..k]))
    {
      FateKnows(log, i, k);
    }
    if Unattended(FateOf(log[..k])) {
      StartedIsBorn(log[..k]);
      var i := LastLaunch(log, k);
      assert AbandonsFrom(log, i, k);
    }
  }

  lemma Extend(log: seq<Action>, a: Action, expected: nat) returns (more: seq<Action>)
    ensures more == log + [a]
    ensures Watch(more, expected) == Observe(Watch(log, expected), a, expected)
    ensures FateOf(more) == Follow(FateOf(log), a)
  {
    more := log + [a];
    assert more[..|log|] == log;
  }

  // ---------------------------------------------------------------- whose event is classified

  ghost predicate WaitedLast(log: seq<Action>, i: int, j: int) {
    0 <= j < i <= |log| && log[j].Waited? && forall k :: j < k < i ==> !log[k].Waited? && !log[k].Launch?
  }

  lemma {:induction false} LastWaited(log: seq<Action>, i: nat) returns (j: int)
    requires i <= |log| && FateOf(log[..i]).last.Some?
    ensures WaitedLast(log, i, j) && FateOf(log[..i]).last == Some(log[j].event.pid)
    decreases i
  {
    assert i > 0;
    assert log[..i][..i - 1] == log[..i - 1];
    FollowKeeps(FateOf(log[..i - 1]), log[i - 1]);
    hide Follow;
    if log[i - 1].Waited? {
      j := i - 1;
    } else {
      j := LastWaited(log, i - 1);
    }
  }

  /** The classification is by the event waited for last, after the last launch; it need not be the child's own. */
  lemma ClassifiedByLastWaited(log: seq<Action>, i: nat) returns (j: int)
    requires FateOf(log).ok && i < |log| && log[i].Classify?
    ensures WaitedLast(log, i, j) && log[j].event.pid == log[i].pid
  {
    FateOfPrefix(log, i + 1);
    assert log[..i + 1][..i] == log[..i];
    j := LastWaited(log, i);
  }

  // ---------------------------------------------------------------- what was flipped

  /** Entry `i` is the last flip before `n`, and no child has been launched since. */
  ghost predicate FlippedLast(log: seq<Action>, n: int, i: int) {
    0 <= i < n <= |log| && log[i].Flip? && forall k :: i < k < n ==> !log[k].Flip? && !log[k].Launch?
  }

  lemma {:induction false} LastChange(log: seq<Action>, n: nat) returns (i: int)
    requires n <= |log| && FateOf(log[..n]).change.Some?
    ensures FlippedLast(log, n, i) && FateOf(log[..n]).change == Some(log[i].change)
    decreases n
  {
    assert n > 0;
    assert log[..n][..n - 1] == log[..n - 1];
    FollowKeeps(FateOf(log[..n - 1]), log[n - 1]);
    hide Follow;
    if log[n - 1].Flip? {
      i := n - 1;
    } else {
      i := LastChange(log, n - 1);
    }
  }

  // ---------------------------------------------------------------- terminals

  function Opens(log: seq<Action>, fd: int): nat {
    if log == [] then 0 else Opens(log[..|log| - 1], fd) + if log[|log| - 1] == OpenPty(fd) then 1 else 0
  }

  function Closes(log: seq<Action>, fd: int): nat {
    if log == [] then 0 else Closes(log[..|log| - 1], fd) + if log[|log| - 1] == ClosePty(fd) then 1 else 0
  }

  /** In an accepted log a descriptor has been opened as often as closed, once more while it is the open terminal. */
  lemma {:induction false} TerminalsBalance(log: seq<Action>, expected: nat, fd: int)
    requires Accepted(log, expected)
    ensures Opens(log, fd) == Closes(log, fd) + if Watch(log, expected).pty == Some(fd) then 1 else 0
    decreases |log|
  {
    if log != [] {
      AcceptedPrefix(log, expected, |log| - 1);
      TerminalsBalance(log[..|log| - 1], expected, fd);
    }
  }

  /** Each opening is followed by the closing of the same descriptor before the next opening or the end. */
  lemma OpenedIsClosed(log: seq<Action>, expected: nat, i: nat, k: nat)
    requires Accepted(log, expected) && i < k <= |log| && log[i].OpenPty?
    requires if k == |log| then Watch(log, expected).pty.None? else log[k].OpenPty?
    ensures exists j :: i < j < k && log[j] == ClosePty(log[i].fd)
  {
    assert k == |log| ==> log[..k] == log;
    if k < |log| {
      AcceptedPrefix(log, expected, k + 1);
      assert log[..k + 1][..k] == log[..k];
    }
    if forall j :: i < j < k ==> log[j] != ClosePty(log[i].fd) { StaysOpen(log, expected, i, k); }
  }

  lemma PtyStep(u: View, a: Action, expected: nat, fd: int)
    requires Observe(u, a, expected).ok
    ensures a == OpenPty(fd) ==> Observe(u, a, expected).pty == Some(fd)
    ensures u.pty == Some(fd) && a != ClosePty(fd) ==> Observe(u, a, expected).pty == Some(fd)
  {
  }

  lemma {:induction false} StaysOpen(log: seq<Action>, expected: nat, i: nat, k: nat)
    requires Accepted(log, expected) && i < k <= |log| && log[i].OpenPty?
    requires forall j :: i < j < k ==> log[j] != ClosePty(log[i].fd)
    ensures Watch(log[..k], expected).pty == Some(log[i].fd)
    decreases k
  {
    hide Observe;
    assert log[..k][..k - 1] == log[..k - 1];
    AcceptedPrefix(log, expected, k);
    PtyStep(Watch(log[..k - 1], expected), log[k - 1], expected, log[i].fd);
    if k > i + 1 { StaysOpen(log, expected, i, k - 1); }
  }

  // ---------------------------------------------------------------- counts

  function Launches(log: seq<Action>): nat {
    if log == [] then 0 else Launches(log[..|log| - 1]) + if log[|log| - 1].Launch? then 1 else 0
  }

  function Starts(log: seq<Action>): nat {
    if log == [] then 0 else Starts(log[..|log| - 1]) + if log[|log| - 1].Start? then 1 else 0
  }

  function Flips(log: seq<Action>): nat {
    if log == [] then 0 else Flips(log[..|log| - 1]) + if log[|log| - 1].Flip? then 1 else 0
  }

  /** The processes resumed, in order. */
  function Conts(log: seq<Action>): seq<int> {
    if log == [] then [] else
    Conts(log[..|log| - 1]) + if log[|log| - 1].Cont? then [log[|log| - 1].pid] else []
  }

  lemma ContsSnoc(log: seq<Action>, a: Action)
    ensures Conts(log + [a]) == Conts(log) + if a.Cont? then [a.pid] else []
  {
    assert (log + [a])[..|log|] == log;
  }

  lemma ObserveCounts(u: View, a: Action, expected: nat)
    ensures Observe(u, a, expected).launches == u.launches + if a.Launch? then 1 else 0
    ensures Observe(u, a, expected).starts == u.starts + if a.Start? then 1 else 0
    ensures Observe(u, a, expected).totalFlips == u.totalFlips + if a.Flip? then 1 else 0
  {
  }

  lemma {:induction false} WatchCounts(log: seq<Action>, expected: nat)
    ensures Watch(log, expected).launches == Launches(log)
    ensures Watch(log, expected).starts == Starts(log)
    ensures Watch(log, expected).totalFlips == Flips(log)
    decreases |log|
  {
    hide Observe;
    if log != [] {
      WatchCounts(log[..|log| - 1], expected);
      ObserveCounts(Watch(log[..|log| - 1], expected), log[|log| - 1], expected);
    }
  }
}
